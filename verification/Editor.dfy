/** The browser's machine form: what it builds from a masked config, and what it sends back. */
module Editor {
  import opened Bytes
  import opened Config
  import Envelope

  // ---- String.prototype.trim on UTF-8 text ----

  predicate Space1(a: byte) {
    9 <= a <= 13 || a == 32
  }

  predicate Space2(a: byte, b: byte) {
    a == 0xC2 && b == 0xA0
  }

  /** U+1680, U+2000..200A, U+2028, U+2029, U+202F, U+205F, U+3000 and U+FEFF. */
  predicate Space3(a: byte, b: byte, c: byte) {
    || (a == 0xE1 && b == 0x9A && c == 0x80)
    || (a == 0xE2 && b == 0x80 && (0x80 <= c <= 0x8A || c == 0xA8 || c == 0xA9 || c == 0xAF))
    || (a == 0xE2 && b == 0x81 && c == 0x9F)
    || (a == 0xE3 && b == 0x80 && c == 0x80)
    || (a == 0xEF && b == 0xBB && c == 0xBF)
  }

  /** The length of the white-space character s starts with; 0 when there is none. */
  function LeadSpace(s: seq<byte>): (n: nat)
    ensures n <= |s|
  {
    if |s| >= 1 && Space1(s[0]) then 1
    else if |s| >= 2 && Space2(s[0], s[1]) then 2
    else if |s| >= 3 && Space3(s[0], s[1], s[2]) then 3
    else 0
  }

  function TrailSpace(s: seq<byte>): (n: nat)
    ensures n <= |s|
  {
    var n := |s|;
    if n >= 1 && Space1(s[n - 1]) then 1
    else if n >= 2 && Space2(s[n - 2], s[n - 1]) then 2
    else if n >= 3 && Space3(s[n - 3], s[n - 2], s[n - 1]) then 3
    else 0
  }

  function TrimStart(s: seq<byte>): (t: seq<byte>)
    ensures LeadSpace(t) == 0
    ensures LeadSpace(s) == 0 ==> t == s
  {
    if LeadSpace(s) == 0 then s else TrimStart(s[LeadSpace(s)..])
  }

  function TrimEnd(s: seq<byte>): (t: seq<byte>)
    ensures t <= s && TrailSpace(t) == 0
    ensures TrailSpace(s) == 0 ==> t == s
  {
    if TrailSpace(s) == 0 then s else TrimEnd(s[..|s| - TrailSpace(s)])
  }

  function Trim(s: seq<byte>): (t: seq<byte>)
    ensures LeadSpace(t) == 0 && TrailSpace(t) == 0
    ensures LeadSpace(s) == 0 && TrailSpace(s) == 0 ==> t == s
  {
    var u := TrimStart(s);
    var t := TrimEnd(u);
    assert forall i :: 0 <= i < |t| ==> t[i] == u[i];
    t
  }

  // ---- what counts as white space, and that Trim takes it off and nothing else ----

  /** The white space and line ends of ECMAScript. */
  predicate JsSpace(c: int) {
    9 <= c <= 13 || c in {0x20, 0xA0, 0x1680, 0x2028, 0x2029, 0x202F, 0x205F, 0x3000, 0xFEFF} || 0x2000 <= c <= 0x200A
  }

  /** UTF-8 (section 3 of RFC 3629). */
  function Utf8(c: int): seq<byte>
    requires 0 <= c < 0x110000
  {
    if c < 0x80 then [c]
    else if c < 0x800 then [0xC0 + c / 0x40, 0x80 + c % 0x40]
    else if c < 0x10000 then [0xE0 + c / 0x1000, 0x80 + c / 0x40 % 0x40, 0x80 + c % 0x40]
    else [0xF0 + c / 0x40000, 0x80 + c / 0x1000 % 0x40, 0x80 + c / 0x40 % 0x40, 0x80 + c % 0x40]
  }

  lemma LeadSpaceIs(c: int, rest: seq<byte>)
    requires 0 <= c < 0x110000
    ensures LeadSpace(Utf8(c) + rest) == if JsSpace(c) then |Utf8(c)| else 0
  {
    var u := Utf8(c);
    assert forall i :: 0 <= i < |u| ==> (u + rest)[i] == u[i];
    if 0x80 <= c < 0x800 {
      TwoBytesInFront(u + rest, c);
    } else if 0x800 <= c < 0x10000 {
      ThreeBytesInFront(u + rest, c);
    }
  }

  lemma TwoBytesInFront(s: seq<byte>, c: int)
    requires 0x80 <= c < 0x800 && |s| >= 2 && s[0] == 0xC0 + c / 0x40 && s[1] == 0x80 + c % 0x40
    ensures LeadSpace(s) == if c == 0xA0 then 2 else 0
  {
  }

  lemma ThreeBytesInFront(s: seq<byte>, c: int)
    requires 0x800 <= c < 0x10000 && |s| >= 3
    requires s[0] == 0xE0 + c / 0x1000 && s[1] == 0x80 + c / 0x40 % 0x40 && s[2] == 0x80 + c % 0x40
    ensures LeadSpace(s) == if JsSpace(c) then 3 else 0
  {
    var a, b, d := c / 0x1000, c / 0x40 % 0x40, c % 0x40;
    assert c == 0x1000 * a + 0x40 * b + d by {
      assert c / 0x40 / 0x40 == a;
    }
  }

  lemma TrailSpaceIs(c: int, before: seq<byte>)
    requires 0 <= c < 0x110000
    ensures TrailSpace(before + Utf8(c)) == if JsSpace(c) then |Utf8(c)| else 0
  {
    var u := Utf8(c);
    assert forall i :: |before| <= i < |before + u| ==> (before + u)[i] == u[i - |before|];
    if c < 0x80 {
    } else if c < 0x800 {
      TwoBytesAtEnd(before + u, c);
    } else if c < 0x10000 {
      ThreeBytesAtEnd(before + u, c);
    } else {
      FourBytesAtEnd(before + u, c);
    }
  }

  lemma TwoBytesAtEnd(s: seq<byte>, c: int)
    requires 0x80 <= c < 0x800 && |s| >= 2 && s[|s| - 2] == 0xC0 + c / 0x40 && s[|s| - 1] == 0x80 + c % 0x40
    ensures TrailSpace(s) == if c == 0xA0 then 2 else 0
  {
  }

  lemma ThreeBytesAtEnd(s: seq<byte>, c: int)
    requires 0x800 <= c < 0x10000 && |s| >= 3 && s[|s| - 3] == 0xE0 + c / 0x1000
    requires s[|s| - 2] == 0x80 + c / 0x40 % 0x40 && s[|s| - 1] == 0x80 + c % 0x40
    ensures TrailSpace(s) == if JsSpace(c) then 3 else 0
  {
    var a, b, d := c / 0x1000, c / 0x40 % 0x40, c % 0x40;
    assert c == 0x1000 * a + 0x40 * b + d by {
      assert c / 0x40 / 0x40 == a;
    }
  }

  lemma FourBytesAtEnd(s: seq<byte>, c: int)
    requires 0x10000 <= c < 0x110000 && |s| >= 4
    requires s[|s| - 3] == 0x80 + c / 0x1000 % 0x40 && s[|s| - 2] == 0x80 + c / 0x40 % 0x40 && s[|s| - 1] == 0x80 + c % 0x40
    ensures TrailSpace(s) == 0
  {
  }

  predicate SpaceOnly(s: seq<byte>) {
    s == [] || (LeadSpace(s) > 0 && SpaceOnly(s[LeadSpace(s)..]))
  }

  predicate SpaceOnlyBack(s: seq<byte>) {
    s == [] || (TrailSpace(s) > 0 && SpaceOnlyBack(s[..|s| - TrailSpace(s)]))
  }

  lemma {:induction false} TrimStartStrips(lead: seq<byte>, t: seq<byte>)
    requires SpaceOnly(lead) && LeadSpace(t) == 0
    ensures TrimStart(lead + t) == t
    decreases |lead|
  {
    if lead == [] {
      assert lead + t == t;
    } else {
      var n := LeadSpace(lead);
      assert LeadSpace(lead + t) == n by {
        assert forall i :: 0 <= i < |lead| ==> (lead + t)[i] == lead[i];
      }
      assert (lead + t)[n..] == lead[n..] + t;
      TrimStartStrips(lead[n..], t);
    }
  }

  lemma {:induction false} TrimEndStrips(t: seq<byte>, trail: seq<byte>)
    requires SpaceOnlyBack(trail) && TrailSpace(t) == 0
    ensures TrimEnd(t + trail) == t
    decreases |trail|
  {
    if trail == [] {
      assert t + trail == t;
    } else {
      var n := TrailSpace(trail);
      TrailSpaceOfEnd(t, trail);
      TrimEndStep(t + trail);
      TrimEndStrips(t, trail[..|trail| - n]);
    }
  }

  lemma TrimEndStep(s: seq<byte>)
    requires TrailSpace(s) > 0
    ensures TrimEnd(s) == TrimEnd(s[..|s| - TrailSpace(s)])
  {
  }

  lemma TrailSpaceOfEnd(t: seq<byte>, trail: seq<byte>)
    requires TrailSpace(trail) > 0
    ensures TrailSpace(t + trail) == TrailSpace(trail)
    ensures (t + trail)[..|t + trail| - TrailSpace(trail)] == t + trail[..|trail| - TrailSpace(trail)]
  {
    assert forall i :: |t| <= i < |t + trail| ==> (t + trail)[i] == trail[i - |t|];
  }

  /** What stands between white space comes out whole. */
  lemma TrimStrips(lead: seq<byte>, t: seq<byte>, trail: seq<byte>)
    requires SpaceOnly(lead) && SpaceOnlyBack(trail) && TrailSpace(t) == 0 && LeadSpace(t + trail) == 0
    ensures Trim(lead + t + trail) == t
  {
    Regroup(lead, t, trail);
    TrimBothEnds(lead + t + trail);
    TrimStartStrips(lead, t + trail);
    TrimEndStrips(t, trail);
  }

  lemma Regroup(a: seq<byte>, b: seq<byte>, c: seq<byte>)
    ensures a + b + c == a + (b + c)
  {
  }

  lemma TrimBothEnds(s: seq<byte>)
    ensures Trim(s) == TrimEnd(TrimStart(s))
  {
  }

  // ---- the form ----

  const LOCAL_PASS := "LOCALADMINPASS"
  const DOMAIN_PASS := "DOMAINPASS"
  const LOCAL_KEYS := ["TIMEZONE", "LOCALADMINUSER"]
  const DOMAIN_KEYS := ["JOINDOMAIN", "DOMAINOU", "DOMAINUSER"]
  const KEYS: set<string> :=
    {"TIMEZONE", "LOCALADMINUSER", "LOCALADMINPASS", "JOINDOMAIN", "DOMAINOU", "DOMAINUSER", "DOMAINPASS"}
  const TOP_KEYS: set<string> := {"mode", "targetDisk", "computerName", "imageUrl", "confirmWipe", "unattend"}

  /** The form's state: its top-level text fields, its unattend text fields, two switches, and whether each
      stored password exists. */
  datatype Form = Form(
    top: map<string, seq<byte>>,
    unattend: map<string, seq<byte>>,
    confirmWipe: bool,
    joinDomain: bool,
    localAdminPassSet: bool,
    domainPassSet: bool)
  {
    function Top(k: string): seq<byte> {
      if k in top then top[k] else []
    }

    function Un(k: string): seq<byte> {
      if k in unattend then unattend[k] else []
    }
  }

  /** A typed password, KEEP for an untouched one that is set, or nothing. */
  function SecretOut(value: seq<byte>, wasSet: bool): seq<byte> {
    if value != [] then value else if wasSet then KEEP else []
  }

  predicate IsPass(k: string) {
    k == LOCAL_PASS || k == DOMAIN_PASS
  }

  predicate IsDomain(k: string) {
    k in DOMAIN_KEYS || k == DOMAIN_PASS
  }

  /** What the form sends for one unattend key; empty means the key is left out. */
  function Sent(f: Form, k: string): seq<byte> {
    if IsDomain(k) && !f.joinDomain then []
    else if k == LOCAL_PASS then SecretOut(f.Un(k), f.localAdminPassSet)
    else if k == DOMAIN_PASS then SecretOut(f.Un(k), f.domainPassSet)
    else Trim(f.Un(k))
  }

  function SentUnattend(f: Form): Fields {
    map k | k in KEYS && Sent(f, k) != [] :: Str(Sent(f, k))
  }

  function TextField(s: seq<byte>): Option<Json> {
    if s != [] then Some(Str(s)) else None
  }

  function SentTop(f: Form, k: string): Option<Json> {
    if k == UNATTEND then (if SentUnattend(f) != map[] then Some(Obj(SentUnattend(f))) else None)
    else if k == "confirmWipe" then Some(Bool(f.confirmWipe))
    else if k == "mode" then TextField(f.Top(k))
    else TextField(Trim(f.Top(k)))
  }

  /** The sparse override a save submits. */
  function ToConfig(f: Form): Fields {
    map k | k in TOP_KEYS && SentTop(f, k).Some? :: SentTop(f, k).value
  }

  lemma SameFields(a: Fields, b: Fields)
    requires forall k :: k in a <==> k in b
    requires forall k :: k in a ==> a[k] == b[k]
    ensures a == b
  {
  }

  method PutTrimmed(un: Fields, f: Form, keys: seq<string>) returns (out: Fields)
    ensures forall k :: k in out <==> k in un || (k in keys && Trim(f.Un(k)) != [])
    ensures forall k :: k in out ==> out[k] == if k in keys && Trim(f.Un(k)) != [] then Str(Trim(f.Un(k))) else un[k]
  {
    out := un;
    for i := 0 to |keys|
      invariant forall k :: k in out <==> k in un || (k in keys[..i] && Trim(f.Un(k)) != [])
      invariant forall k :: k in out ==>
                  out[k] == if k in keys[..i] && Trim(f.Un(k)) != [] then Str(Trim(f.Un(k))) else un[k]
    {
      assert keys[..i + 1] == keys[..i] + [keys[i]];
      if Trim(f.Un(keys[i])) != [] {
        out := out[keys[i] := Str(Trim(f.Un(keys[i])))];
      }
    }
    assert keys[..|keys|] == keys;
  }

  method PutSecret(un: Fields, k: string, value: seq<byte>, wasSet: bool) returns (out: Fields)
    ensures out == if SecretOut(value, wasSet) != [] then un[k := Str(SecretOut(value, wasSet))] else un
  {
    out := un;
    if SecretOut(value, wasSet) != [] {
      out := un[k := Str(SecretOut(value, wasSet))];
    }
  }

  lemma KeyGroups(k: string)
    ensures k in KEYS <==> k in LOCAL_KEYS || k in DOMAIN_KEYS || k == LOCAL_PASS || k == DOMAIN_PASS
    ensures k in LOCAL_KEYS ==> !IsDomain(k) && !IsPass(k)
    ensures k in DOMAIN_KEYS ==> !IsPass(k)
    ensures k == LOCAL_PASS ==> !IsDomain(k)
  {
  }

  /** The assignments the form makes, in its own order. */
  method BuildUnattend(f: Form) returns (un: Fields)
    ensures un == SentUnattend(f)
  {
    un := PutTrimmed(map[], f, LOCAL_KEYS);
    un := PutSecret(un, LOCAL_PASS, f.Un(LOCAL_PASS), f.localAdminPassSet);
    if f.joinDomain {
      un := PutTrimmed(un, f, DOMAIN_KEYS);
      un := PutSecret(un, DOMAIN_PASS, f.Un(DOMAIN_PASS), f.domainPassSet);
    }
    forall k
      ensures k in un <==> k in KEYS && Sent(f, k) != []
      ensures k in un ==> un[k] == Str(Sent(f, k))
    {
      KeyGroups(k);
    }
    SameFields(un, SentUnattend(f));
  }

  function PutText(cfg: Fields, k: string, value: seq<byte>): Fields {
    if value != [] then cfg[k := Str(value)] else cfg
  }

  method BuildConfig(f: Form) returns (cfg: Fields)
    ensures cfg == ToConfig(f)
  {
    var un := BuildUnattend(f);
    cfg := PutText(map[], "mode", f.Top("mode"));
    cfg := PutText(cfg, "targetDisk", Trim(f.Top("targetDisk")));
    cfg := PutText(cfg, "computerName", Trim(f.Top("computerName")));
    cfg := PutText(cfg, "imageUrl", Trim(f.Top("imageUrl")));
    cfg := cfg["confirmWipe" := Bool(f.confirmWipe)];
    ghost var most := cfg;
    if un != map[] {
      cfg := cfg[UNATTEND := Obj(un)];
    }
    forall k
      ensures k in cfg <==> k in TOP_KEYS && SentTop(f, k).Some?
      ensures k in cfg ==> cfg[k] == SentTop(f, k).value
    {
      if k != UNATTEND {
        MostOfConfig(f, most, k);
      }
    }
    SameFields(cfg, ToConfig(f));
  }

  lemma MostOfConfig(f: Form, cfg: Fields, k: string)
    requires cfg == PutText(PutText(PutText(PutText(map[], "mode", f.Top("mode")), "targetDisk", Trim(f.Top("targetDisk"))),
                                    "computerName", Trim(f.Top("computerName"))),
                            "imageUrl", Trim(f.Top("imageUrl")))["confirmWipe" := Bool(f.confirmWipe)]
    ensures UNATTEND !in cfg
    ensures k != UNATTEND ==> (k in cfg <==> k in TOP_KEYS && SentTop(f, k).Some?)
    ensures k != UNATTEND && k in cfg ==> cfg[k] == SentTop(f, k).value
  {
    var one := PutText(map[], "mode", f.Top("mode"));
    var two := PutText(one, "targetDisk", Trim(f.Top("targetDisk")));
    var three := PutText(two, "computerName", Trim(f.Top("computerName")));
    var four := PutText(three, "imageUrl", Trim(f.Top("imageUrl")));
    PutTextAt(map[], "mode", f.Top("mode"), k);
    PutTextAt(one, "targetDisk", Trim(f.Top("targetDisk")), k);
    PutTextAt(two, "computerName", Trim(f.Top("computerName")), k);
    PutTextAt(three, "imageUrl", Trim(f.Top("imageUrl")), k);
    assert cfg == four["confirmWipe" := Bool(f.confirmWipe)];
  }

  lemma PutTextAt(cfg: Fields, k: string, value: seq<byte>, j: string)
    ensures Config.Lookup(PutText(cfg, k, value), j)
         == if j == k && value != [] then Some(Str(value)) else Config.Lookup(cfg, j)
  {
  }

  // ---- what a form sends, field by field ----

  /** The text submitted for an unattend field, if any. */
  function SentField(f: Form, k: string): Option<Json> {
    if Unattend(ToConfig(f)).Some? then Config.Lookup(Unattend(ToConfig(f)).value, k) else None
  }

  lemma SentFieldIs(f: Form, k: string)
    ensures SentField(f, k) == if k in KEYS && Sent(f, k) != [] then Some(Str(Sent(f, k))) else None
  {
    UnattendOf(f);
  }

  function NonEmpty(s: seq<byte>): Option<Json> { if s == [] then None else Some(Str(s)) }

  /** A typed password is sent as it was typed; a blank one as KEEP if one is stored, and else not at all. */
  lemma PasswordSent(f: Form)
    ensures SentField(f, "LOCALADMINPASS")
         == if f.Un("LOCALADMINPASS") != [] then Some(Str(f.Un("LOCALADMINPASS")))
            else if f.localAdminPassSet then Some(Str(B("__KEEP__"))) else None
    ensures SentField(f, "DOMAINPASS")
         == if !f.joinDomain then None
            else if f.Un("DOMAINPASS") != [] then Some(Str(f.Un("DOMAINPASS")))
            else if f.domainPassSet then Some(Str(B("__KEEP__"))) else None
  {
    SentFieldIs(f, LOCAL_PASS);
    SentFieldIs(f, DOMAIN_PASS);
    KeyGroups(LOCAL_PASS);
    KeyGroups(DOMAIN_PASS);
    KeepIsText();
  }

  /** A text field is sent trimmed unless it is blank; a domain field only if the machine joins one. */
  lemma TextSent(f: Form, k: string)
    ensures k in {"TIMEZONE", "LOCALADMINUSER"} ==> SentField(f, k) == NonEmpty(Trim(f.Un(k)))
    ensures k in {"JOINDOMAIN", "DOMAINOU", "DOMAINUSER"} ==>
              SentField(f, k) == if f.joinDomain then NonEmpty(Trim(f.Un(k))) else None
    ensures k !in {"TIMEZONE", "LOCALADMINUSER", "LOCALADMINPASS", "JOINDOMAIN", "DOMAINOU", "DOMAINUSER", "DOMAINPASS"} ==>
              SentField(f, k) == None
  {
    SentFieldIs(f, k);
    KeyGroups(k);
  }

  /** Outside the unattend block: the mode as chosen, three texts trimmed, and the switch always. */
  lemma TopSent(f: Form, k: string)
    ensures Config.Lookup(ToConfig(f), "mode") == NonEmpty(f.Top("mode"))
    ensures k in {"targetDisk", "computerName", "imageUrl"} ==> Config.Lookup(ToConfig(f), k) == NonEmpty(Trim(f.Top(k)))
    ensures Config.Lookup(ToConfig(f), "confirmWipe") == Some(Bool(f.confirmWipe))
    ensures k !in {"mode", "targetDisk", "computerName", "imageUrl", "confirmWipe", "unattend"} ==> k !in ToConfig(f)
  {
    assert "mode" in TOP_KEYS && "confirmWipe" in TOP_KEYS;
  }

  /** The unattend block is sent exactly when it has a field. */
  lemma BlockSent(f: Form)
    ensures "unattend" in ToConfig(f) <==> exists j :: SentField(f, j).Some?
  {
    UnattendOf(f);
    if SentUnattend(f) != map[] {
      var j :| j in SentUnattend(f);
      assert SentField(f, j).Some?;
    }
  }

  /** End to end: a password typed into the form, that is neither KEEP nor an envelope itself, is on disk sealed after
      the save, and decrypts to what was typed. */
  lemma TypedPasswordIsStored(v: Vault, ivs: Ivs, f: Form, bom: bool, prev: Raw, k: string)
    requires k == "LOCALADMINPASS" || (k == "DOMAINPASS" && f.joinDomain)
    requires f.Un(k) != [] && f.Un(k) != B("__KEEP__") && !(B("enc:v1:") <= f.Un(k))
    requires v.master.Some? && EncryptConfig(v, ivs, Raw(bom, Some(ToConfig(f))), prev).Ok?
    ensures var un := Unattend(EncryptConfig(v, ivs, Raw(bom, Some(ToConfig(f))), prev).value);
            && un.Some? && k in un.value && un.value[k].Str?
            && B("enc:v1:") <= un.value[k].s && Envelope.DecryptSecret(v.suite, v.master, un.value[k].s) == Ok(f.Un(k))
  {
    PasswordSent(f);
    PassFields(k);
    SecretNames(k);
    SaveByName(v, ivs, Raw(bom, Some(ToConfig(f))), prev, k);
  }

  function TextOr(m: Fields, k: string, default: seq<byte>): seq<byte> {
    if k in m && m[k].Str? then m[k].s else default
  }

  function Truthy(m: Fields, k: string): bool {
    k in m && (match m[k]
               case Null => false
               case Bool(b) => b
               case Num(bits) => bits != 0 && bits != 0x8000_0000_0000_0000
               case Str(s) => s != []
               case Arr(_) => true
               case Obj(_) => true)
  }

  /** False are a missing field, null, false, both zeros and the empty text; everything else is true. */
  lemma TruthyMeans(m: Fields, k: string)
    ensures !Truthy(m, k) <==>
            k !in m || m[k] == Null || m[k] == Bool(false) || m[k] == Str([])
            || m[k] == Num(0) || m[k] == Num(0x8000_0000_0000_0000)
  {
  }

  /** The form a masked config opens as: a masked password shows blank and is remembered as set. */
  function FromConfig(c: Fields): Form {
    var u := if Unattend(c).Some? then Unattend(c).value else map[];
    Form(map k | k in TOP_KEYS :: TextOr(c, k, if k == "mode" then B("zerotouch") else []),
         map k | k in KEYS :: if IsPass(k) && TextOr(u, k, []) == KEEP then [] else TextOr(u, k, []),
         Truthy(c, "confirmWipe"), Truthy(u, "JOINDOMAIN"),
         TextOr(u, LOCAL_PASS, []) == KEEP, TextOr(u, DOMAIN_PASS, []) == KEEP)
  }

  // ---- load, do not touch, save ----

  /** The config an untouched save submits. */
  function Reload(stored: Fields): Fields {
    ToConfig(FromConfig(MaskConfig(Raw(false, Some(stored))).value))
  }

  ghost predicate UnattendShaped(un: Fields) {
    forall k :: k in un ==> k in KEYS && AsText(un[k]) != [] && (!IsPass(k) ==> Trim(AsText(un[k])) == AsText(un[k]))
  }

  ghost predicate TopShaped(k: string, j: Json) {
    if k == UNATTEND then j.Obj? && UnattendShaped(j.fields)
    else if k == "confirmWipe" then j.Bool?
    else AsText(j) != [] && (k != "mode" ==> Trim(AsText(j)) == AsText(j))
  }

  /** The shape of every config stored from a form. */
  ghost predicate FormShaped(c: Fields) {
    "confirmWipe" in c && forall k :: k in c ==> k in TOP_KEYS && TopShaped(k, c[k])
  }

  lemma PassFields(k: string)
    requires k in KEYS
    ensures IsSecretField(k) <==> IsPass(k)
  {
  }

  lemma SavedUnattendShaped(v: Vault, ivs: Ivs, f: Form, prevUn: Fields)
    requires SaveUnattend(v, ivs, SentUnattend(f), prevUn).Ok?
    ensures UnattendShaped(SaveUnattend(v, ivs, SentUnattend(f), prevUn).value)
  {
    var un := SaveUnattend(v, ivs, SentUnattend(f), prevUn).value;
    forall k | k in un
      ensures k in KEYS && AsText(un[k]) != [] && (!IsPass(k) ==> Trim(AsText(un[k])) == AsText(un[k]))
    {
      assert SentUnattend(f)[k] == Str(Sent(f, k));
      PassFields(k);
    }
  }

  lemma SavedIsFormShaped(v: Vault, ivs: Ivs, f: Form, bom: bool, prev: Raw)
    requires EncryptConfig(v, ivs, Raw(bom, Some(ToConfig(f))), prev).Ok?
    ensures FormShaped(EncryptConfig(v, ivs, Raw(bom, Some(ToConfig(f))), prev).value)
  {
    var cfg := ToConfig(f);
    var out := EncryptConfig(v, ivs, Raw(bom, Some(cfg)), prev).value;
    assert "confirmWipe" in TOP_KEYS && SentTop(f, "confirmWipe").Some?;
    forall k | k in cfg && k != UNATTEND
      ensures k in TOP_KEYS && TopShaped(k, cfg[k])
    {
      assert cfg[k] == SentTop(f, k).value;
    }
    if UNATTEND in cfg {
      assert cfg[UNATTEND] == SentTop(f, UNATTEND).value;
      SavedUnattendShaped(v, ivs, f, PrevUnattend(prev));
    }
  }

  /** An untouched form sends every stored field back, passwords as KEEP; domain fields only with a domain. */
  lemma UntouchedSends(un: Fields, f: Form, k: string)
    requires Untouched(un, f) && k in KEYS
    ensures Sent(f, k) ==
            if k !in un || (IsDomain(k) && "JOINDOMAIN" !in un) then [] else if IsPass(k) then KEEP else AsText(un[k])
  {
  }

  lemma MaskedUnattend(un: Fields, k: string)
    requires UnattendShaped(un)
    ensures TextOr(MaskUnattend(un), k, []) == if k !in un then [] else if IsPass(k) then KEEP else AsText(un[k])
    ensures Truthy(MaskUnattend(un), k) <==> k in un
  {
    if k in un {
      PassFields(k);
    }
  }

  /** The unattend block an untouched save leaves: what was stored, less orphaned domain fields. */
  function Kept(un: Fields): Fields {
    map k | k in un && (IsDomain(k) ==> "JOINDOMAIN" in un) :: un[k]
  }

  function StoredUnattend(stored: Fields): Fields {
    if Unattend(stored).Some? then Unattend(stored).value else map[]
  }

  /** The form a masked config opens as: blank passwords remembered as set, everything else as stored. */
  lemma ReloadedForm(stored: Fields)
    requires FormShaped(stored)
    ensures Untouched(StoredUnattend(stored), FromConfig(MaskConfig(Raw(false, Some(stored))).value))
  {
    var un := StoredUnattend(stored);
    var masked := MaskConfig(Raw(false, Some(stored))).value;
    MaskedBlock(stored);
    var u := StoredUnattend(masked);
    assert u == if Unattend(masked).Some? then Unattend(masked).value else map[];
    OpenedFields(un, FromConfig(masked));
    MaskedUnattend(un, "JOINDOMAIN");
    MaskedUnattend(un, LOCAL_PASS);
    MaskedUnattend(un, DOMAIN_PASS);
    KeepIsText();
  }

  lemma KeepIsText()
    ensures KEEP != []
  {
    assert KEEP[0] == '_' as int;
  }

  lemma MaskedBlock(stored: Fields)
    ensures StoredUnattend(MaskConfig(Raw(false, Some(stored))).value) == MaskUnattend(StoredUnattend(stored))
  {
    assert MaskUnattend(map[]) == map[];
  }

  lemma OpenedFields(un: Fields, f: Form)
    requires UnattendShaped(un)
    requires var u := MaskUnattend(un);
             f.unattend == map k | k in KEYS :: if IsPass(k) && TextOr(u, k, []) == KEEP then [] else TextOr(u, k, [])
    ensures f.unattend == map j | j in KEYS :: if IsPass(j) then [] else TextOr(un, j, [])
  {
    forall j | j in KEYS
      ensures f.unattend[j] == if IsPass(j) then [] else TextOr(un, j, [])
    {
      MaskedUnattend(un, j);
    }
  }

  ghost predicate Untouched(un: Fields, f: Form) {
    && UnattendShaped(un)
    && f.unattend == (map j | j in KEYS :: if IsPass(j) then [] else TextOr(un, j, []))
    && f.joinDomain == ("JOINDOMAIN" in un)
    && f.localAdminPassSet == (LOCAL_PASS in un) && f.domainPassSet == (DOMAIN_PASS in un)
  }

  lemma ResavedField(v: Vault, ivs: Ivs, un: Fields, f: Form, k: string)
    requires Untouched(un, f) && k in KEYS
    ensures k in SentUnattend(f) <==> k in Kept(un)
    ensures k in SentUnattend(f) ==> Stored(v, ivs, SentUnattend(f), un, k).Ok? || !IsSecretField(k)
    ensures k in SentUnattend(f) ==> Survives(v, ivs, SentUnattend(f), un, k)
    ensures k in SentUnattend(f) ==> StoredValue(v, ivs, SentUnattend(f), un, k) == un[k]
  {
    UntouchedSends(un, f, k);
    PassFields(k);
    assert KEEP != [];
    assert k in SentUnattend(f) ==> SentUnattend(f)[k] == Str(Sent(f, k));
  }

  lemma ResavedUnattend(v: Vault, ivs: Ivs, un: Fields, f: Form)
    requires Untouched(un, f)
    ensures SaveUnattend(v, ivs, SentUnattend(f), un) == Ok(Kept(un))
    ensures SentUnattend(f).Keys == Kept(un).Keys
  {
    var sent := SentUnattend(f);
    forall k
      ensures k in sent <==> k in Kept(un)
      ensures k in sent ==> (IsSecretField(k) ==> Stored(v, ivs, sent, un, k).Ok?)
                            && Survives(v, ivs, sent, un, k) && StoredValue(v, ivs, sent, un, k) == un[k]
    {
      if k in KEYS {
        ResavedField(v, ivs, un, f, k);
      }
    }
    SameFields(SaveUnattend(v, ivs, sent, un).value, Kept(un));
  }

  /** What a stored config must satisfy for an untouched save to leave it alone: it names a mode, holds domain
      fields only together with a domain, and has no empty unattend block. */
  predicate Stable(stored: Fields) {
    && "mode" in stored
    && (UNATTEND in stored ==> stored[UNATTEND] != Obj(map[]))
    && (forall k :: k in StoredUnattend(stored) && IsDomain(k) ==> "JOINDOMAIN" in StoredUnattend(stored))
  }

  function AfterField(stored: Fields, k: string): Option<Json> {
    if k == UNATTEND then (if Kept(StoredUnattend(stored)) != map[] then Some(Obj(Kept(StoredUnattend(stored)))) else None)
    else if k in stored then Some(stored[k])
    else if k == "mode" then Some(Str(B("zerotouch")))
    else None
  }

  /** What an untouched save leaves on disk: the same text fields, a mode always, the unattend block less orphans. */
  function AfterUntouchedSave(stored: Fields): Fields {
    map k | k in TOP_KEYS && AfterField(stored, k).Some? :: AfterField(stored, k).value
  }

  lemma ReloadedUnattend(v: Vault, ivs: Ivs, stored: Fields)
    requires FormShaped(stored)
    ensures var (un, cfg) := (StoredUnattend(stored), Reload(stored));
            && (UNATTEND in cfg <==> Kept(un) != map[])
            && (UNATTEND in cfg ==> Unattend(cfg).Some? && SaveUnattend(v, ivs, Unattend(cfg).value, un) == Ok(Kept(un)))
  {
    var f := FromConfig(MaskConfig(Raw(false, Some(stored))).value);
    ReloadedForm(stored);
    var un := StoredUnattend(stored);
    ResavedUnattend(v, ivs, un, f);
    assert SentUnattend(f) == map[] <==> Kept(un) == map[] by {
      assert SentUnattend(f).Keys == Kept(un).Keys;
    }
    UnattendOf(f);
  }

  lemma UnattendOf(f: Form)
    ensures UNATTEND in ToConfig(f) <==> SentUnattend(f) != map[]
    ensures UNATTEND in ToConfig(f) ==> ToConfig(f)[UNATTEND] == Obj(SentUnattend(f))
  {
  }

  lemma UntouchedSave(v: Vault, ivs: Ivs, stored: Fields)
    requires FormShaped(stored)
    ensures EncryptConfig(v, ivs, Raw(false, Some(Reload(stored))), Raw(false, Some(stored)))
            == Ok(AfterUntouchedSave(stored))
  {
    var cfg, un := Reload(stored), StoredUnattend(stored);
    ReloadedUnattend(v, ivs, stored);
    assert PrevUnattend(Raw(false, Some(stored))) == un;
    var out := if UNATTEND in cfg then cfg[UNATTEND := Obj(Kept(un))] else cfg;
    forall k
      ensures k in out <==> k in AfterUntouchedSave(stored)
      ensures k in out ==> out[k] == AfterUntouchedSave(stored)[k]
    {
      if k in TOP_KEYS && k != UNATTEND {
        TopUnchanged(stored, FromConfig(MaskConfig(Raw(false, Some(stored))).value), k);
      }
    }
    SameFields(out, AfterUntouchedSave(stored));
  }

  lemma AfterIsSameExactly(stored: Fields)
    requires FormShaped(stored)
    ensures AfterUntouchedSave(stored) == stored <==> Stable(stored)
  {
    var un, after := StoredUnattend(stored), AfterUntouchedSave(stored);
    assert UNATTEND in TOP_KEYS && "mode" in TOP_KEYS;
    if Stable(stored) {
      assert Kept(un) == un;
      SameFields(after, stored);
    }
    if after == stored {
      assert AfterField(stored, UNATTEND).Some? <==> UNATTEND in stored;
      assert Kept(un) == un;
    }
  }

  /** Load a config once saved from a form, touch nothing and save: the stored file, secrets included, is the
      same exactly when it is stable. The save needs no randomness, so it cannot fail. */
  lemma UntouchedSaveKeepsExactly(v: Vault, ivs: Ivs, stored: Fields)
    requires FormShaped(stored)
    ensures EncryptConfig(v, ivs, Raw(false, Some(Reload(stored))), Raw(false, Some(stored))).Ok?
    ensures EncryptConfig(v, ivs, Raw(false, Some(Reload(stored))), Raw(false, Some(stored))).value == stored
            <==> Stable(stored)
  {
    UntouchedSave(v, ivs, stored);
    AfterIsSameExactly(stored);
  }

  lemma TopUnchanged(stored: Fields, f: Form, k: string)
    requires FormShaped(stored) && k in TOP_KEYS && k != UNATTEND
    requires f == FromConfig(MaskConfig(Raw(false, Some(stored))).value)
    ensures SentTop(f, k) == if k in stored then Some(stored[k]) else if k == "mode" then Some(Str(B("zerotouch"))) else None
  {
    var masked := MaskConfig(Raw(false, Some(stored))).value;
    assert k in masked <==> k in stored;
    assert k in stored ==> masked[k] == stored[k];
    assert Trim([]) == [];
  }

  // ---- which forms save a config that stays ----

  /** This field of the form reaches the file: it is sent, and is not a password kept that was never stored. */
  predicate Reaches(f: Form, prev: Raw, k: string) {
    && k in KEYS && Sent(f, k) != []
    && (IsPass(k) && Sent(f, k) == KEEP ==> k in PrevUnattend(prev) && AsText(PrevUnattend(prev)[k]) != [])
  }

  lemma ReachesExactly(v: Vault, ivs: Ivs, f: Form, prev: Raw, k: string)
    requires k in SentUnattend(f)
    requires IsSecretField(k) ==> Stored(v, ivs, SentUnattend(f), PrevUnattend(prev), k).Ok?
    ensures Survives(v, ivs, SentUnattend(f), PrevUnattend(prev), k) <==> Reaches(f, prev, k)
  {
    PassFields(k);
    var incoming := Sent(f, k);
    assert SentUnattend(f)[k] == Str(incoming) && incoming != [];
    if IsPass(k) {
      var onDisk := Config.Lookup(PrevUnattend(prev), k);
      assert Stored(v, ivs, SentUnattend(f), PrevUnattend(prev), k) == ResolveSecret(v, ivs(k), incoming, onDisk);
    }
  }

  lemma SavedFields(v: Vault, ivs: Ivs, f: Form, bom: bool, prev: Raw)
    requires EncryptConfig(v, ivs, Raw(bom, Some(ToConfig(f))), prev).Ok?
    ensures var stored := EncryptConfig(v, ivs, Raw(bom, Some(ToConfig(f))), prev).value;
            && (UNATTEND in stored <==> SentUnattend(f) != map[])
            && (UNATTEND in stored ==> stored[UNATTEND] == Obj(StoredUnattend(stored)))
            && (forall k :: k in StoredUnattend(stored) <==> Reaches(f, prev, k))
  {
    var stored := EncryptConfig(v, ivs, Raw(bom, Some(ToConfig(f))), prev).value;
    var sent := SentUnattend(f);
    UnattendOf(f);
    if sent == map[] {
      assert forall k :: k in KEYS ==> Sent(f, k) == [] by {
        forall k | k in KEYS
          ensures Sent(f, k) == []
        {
          assert k !in sent;
        }
      }
    } else {
      forall k
        ensures k in StoredUnattend(stored) <==> Reaches(f, prev, k)
      {
        if k in sent {
          ReachesExactly(v, ivs, f, prev, k);
        }
      }
    }
  }

  lemma SavedMode(v: Vault, ivs: Ivs, f: Form, bom: bool, prev: Raw)
    requires EncryptConfig(v, ivs, Raw(bom, Some(ToConfig(f))), prev).Ok?
    ensures "mode" in EncryptConfig(v, ivs, Raw(bom, Some(ToConfig(f))), prev).value <==> f.Top("mode") != []
  {
    assert "mode" in TOP_KEYS && UNATTEND != "mode";
    assert "mode" in ToConfig(f) <==> SentTop(f, "mode").Some?;
  }

  /** The form names a mode, some unattend field reaches the file if any is sent, and no domain field reaches it
      without a domain. */
  ghost predicate FormStays(f: Form, prev: Raw) {
    && f.Top("mode") != []
    && (SentUnattend(f) != map[] ==> exists k :: Reaches(f, prev, k))
    && (forall k :: Reaches(f, prev, k) && IsDomain(k) ==> Reaches(f, prev, "JOINDOMAIN"))
  }

  /** The config saved from a form is left as it is by untouched load-and-save rounds exactly when the form is one
      that stays. */
  lemma SavedFormIsStable(v: Vault, ivs: Ivs, ivs': Ivs, f: Form, bom: bool, prev: Raw)
    requires EncryptConfig(v, ivs, Raw(bom, Some(ToConfig(f))), prev).Ok?
    ensures var stored := EncryptConfig(v, ivs, Raw(bom, Some(ToConfig(f))), prev).value;
            EncryptConfig(v, ivs', Raw(false, Some(Reload(stored))), Raw(false, Some(stored))) == Ok(stored)
            <==> FormStays(f, prev)
  {
    var stored := EncryptConfig(v, ivs, Raw(bom, Some(ToConfig(f))), prev).value;
    SavedIsFormShaped(v, ivs, f, bom, prev);
    UntouchedSaveKeepsExactly(v, ivs', stored);
    SavedMode(v, ivs, f, bom, prev);
    SavedFields(v, ivs, f, bom, prev);
    StableExactly(f, prev, stored);
  }

  lemma StableExactly(f: Form, prev: Raw, stored: Fields)
    requires "mode" in stored <==> f.Top("mode") != []
    requires UNATTEND in stored <==> SentUnattend(f) != map[]
    requires UNATTEND in stored ==> stored[UNATTEND] == Obj(StoredUnattend(stored))
    requires forall k :: k in StoredUnattend(stored) <==> Reaches(f, prev, k)
    ensures Stable(stored) <==> FormStays(f, prev)
  {
    var un := StoredUnattend(stored);
    if un != map[] {
      var k :| k in un;
      assert Reaches(f, prev, k);
    }
  }

  /** When a form that names a mode, and a domain if it joins one, stays: then only a kept password that was never
      stored can spoil it, and only if nothing else is sent. */
  lemma NamedFormStays(f: Form, prev: Raw)
    requires f.Top("mode") != [] && (f.joinDomain ==> Trim(f.Un("JOINDOMAIN")) != [])
    ensures FormStays(f, prev) <==> SentUnattend(f) == map[] || exists k :: Reaches(f, prev, k)
  {
    assert Sent(f, "JOINDOMAIN") == if f.joinDomain then Trim(f.Un("JOINDOMAIN")) else [];
  }

  /** An instance that does not stay: keeping a password that was never stored leaves an empty unattend
      block behind, which the next untouched save drops. */
  lemma DanglingKeepIsNotStable(v: Vault, ivs: Ivs)
    ensures var f := Form(map["mode" := B("zerotouch")], map[], false, false, true, false);
            var r := EncryptConfig(v, ivs, Raw(false, Some(ToConfig(f))), Raw(false, None));
            && !FormStays(f, Raw(false, None))
            && r.Ok? && UNATTEND in r.value && r.value[UNATTEND] == Obj(map[])
            && UNATTEND !in AfterUntouchedSave(r.value)
  {
    var f := Form(map["mode" := B("zerotouch")], map[], false, false, true, false);
    var sent := SentUnattend(f);
    UnattendOf(f);
    assert Trim([]) == [] && KEEP != [];
    assert LOCAL_PASS in KEYS;
    KeyGroups(LOCAL_PASS);
    assert LOCAL_PASS in sent && Sent(f, LOCAL_PASS) == KEEP;
    forall k | k in sent
      ensures IsSecretField(k) && Stored(v, ivs, sent, map[], k) == Ok([])
    {
      assert sent[k] == Str(Sent(f, k));
      PassFields(k);
    }
    var stored := SaveUnattend(v, ivs, sent, map[]).value;
    assert stored == map[];
    var r := EncryptConfig(v, ivs, Raw(false, Some(ToConfig(f))), Raw(false, None));
    assert StoredUnattend(r.value) == map[];
    assert Kept(map[]) == map[];
  }
}
