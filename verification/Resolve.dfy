/** The API's half: overlay the per-machine config on the default one, then decrypt. */
module Resolve {
  import opened Bytes
  import opened Envelope
  import opened Config

  function UnattendOrEmpty(cfg: Fields): Fields {
    if Unattend(cfg).Some? then Unattend(cfg).value else map[]
  }

  /** Per-machine wins; the unattend block is merged key by key. */
  function MergeConfig(def: Fields, per: Fields): Fields {
    var un := UnattendOrEmpty(def) + UnattendOrEmpty(per);
    var out := def + (per - {UNATTEND});
    if un != map[] then out[UNATTEND := Obj(un)] else out
  }

  /** Key by key: outside unattend the per-machine value wins if there is one; inside, the per-machine field. */
  lemma OverlayKeyByKey(def: Fields, per: Fields, k: string)
    ensures k != UNATTEND ==> Lookup(MergeConfig(def, per), k) == if k in per then Some(per[k]) else Lookup(def, k)
    ensures Lookup(UnattendOrEmpty(MergeConfig(def, per)), k)
         == if k in UnattendOrEmpty(per) then Some(UnattendOrEmpty(per)[k]) else Lookup(UnattendOrEmpty(def), k)
  {
    MergedUnattend(def, per);
  }

  /** The merged block replaces whatever was there, unless it is empty: then what the default has there stays. */
  lemma UnattendSlot(def: Fields, per: Fields)
    ensures Lookup(MergeConfig(def, per), "unattend")
         == if UnattendOrEmpty(def) + UnattendOrEmpty(per) == map[] then Lookup(def, "unattend")
            else Some(Obj(UnattendOrEmpty(def) + UnattendOrEmpty(per)))
  {
  }

  lemma MergedUnattend(def: Fields, per: Fields)
    ensures UnattendOrEmpty(MergeConfig(def, per)) == UnattendOrEmpty(def) + UnattendOrEmpty(per)
  {
    var un, merged := UnattendOrEmpty(def) + UnattendOrEmpty(per), MergeConfig(def, per);
    if un != map[] {
      assert Unattend(merged) == Some(un);
    } else {
      EmptyMerge(UnattendOrEmpty(def), UnattendOrEmpty(per));
      assert UNATTEND in merged ==> merged[UNATTEND] == def[UNATTEND];
      assert UnattendOrEmpty(merged) == map[];
    }
  }

  predicate Readable(v: Vault, j: Json) {
    j.Str? ==> DecryptSecret(v.suite, v.master, j.s).Ok?
  }

  function DecryptValue(v: Vault, j: Json): Json
    requires Readable(v, j)
  {
    if j.Str? then Str(DecryptSecret(v.suite, v.master, j.s).value) else j
  }

  function DecryptFields(v: Vault, un: Fields): Fields
    requires forall k :: k in un ==> Readable(v, un[k])
  {
    map k | k in un :: DecryptValue(v, un[k])
  }

  /** Every string of the unattend block is decrypted, secret field or not. */
  function DecryptUnattend(v: Vault, cfg: Fields): Result<Fields> {
    if Unattend(cfg).None? then Ok(cfg)
    else
      var un := Unattend(cfg).value;
      if exists k | k in un :: !Readable(v, un[k]) then Err
      else Ok(cfg[UNATTEND := Obj(DecryptFields(v, un))])
  }

  lemma DecryptFieldsMerges(v: Vault, ud: Fields, up: Fields)
    requires forall k :: k in ud ==> Readable(v, ud[k])
    requires forall k :: k in up ==> Readable(v, up[k])
    ensures DecryptFields(v, ud + up) == DecryptFields(v, ud) + DecryptFields(v, up)
    ensures ud + up == map[] <==> ud == map[] && up == map[]
    ensures DecryptFields(v, ud + up) == map[] <==> ud + up == map[]
  {
    var all, parts := DecryptFields(v, ud + up), DecryptFields(v, ud) + DecryptFields(v, up);
    assert all.Keys == (ud + up).Keys == parts.Keys;
    assert forall k :: k in all ==> all[k] == parts[k];
    assert all == parts;
    if ud + up == map[] {
      EmptyMerge(ud, up);
    }
    NoKeys(all);
    NoKeys(ud + up);
  }

  lemma NoKeys(m: Fields)
    ensures m == map[] <==> m.Keys == {}
  {
    if m.Keys == {} {
      assert forall k :: k !in m;
    }
  }

  lemma DecryptedUnattend(v: Vault, cfg: Fields)
    requires DecryptUnattend(v, cfg).Ok?
    ensures forall k :: k in UnattendOrEmpty(cfg) ==> Readable(v, UnattendOrEmpty(cfg)[k])
    ensures var d := DecryptUnattend(v, cfg).value;
            && UnattendOrEmpty(d) == DecryptFields(v, UnattendOrEmpty(cfg))
            && d - {UNATTEND} == cfg - {UNATTEND}
            && (UNATTEND in d <==> UNATTEND in cfg)
            && (UnattendOrEmpty(cfg) == map[] ==> d == cfg)
  {
    NoKeys(DecryptFields(v, map[]));
    if Unattend(cfg).Some? {
      var un, d := Unattend(cfg).value, DecryptUnattend(v, cfg).value;
      assert Unattend(d) == Some(DecryptFields(v, un));
      if un == map[] {
        assert d[UNATTEND] == cfg[UNATTEND];
      }
    }
  }

  /** Each string of the block is served decrypted, whatever its name; everything else is served as stored. */
  lemma ServedField(v: Vault, cfg: Fields, k: string)
    requires DecryptUnattend(v, cfg).Ok?
    ensures var (un, d) := (UnattendOrEmpty(cfg), DecryptUnattend(v, cfg).value);
            && (k != "unattend" ==> Lookup(d, k) == Lookup(cfg, k))
            && (k in un <==> k in UnattendOrEmpty(d))
            && (k in un && un[k].Str? ==>
                  UnattendOrEmpty(d)[k].Str? && DecryptSecret(v.suite, v.master, un[k].s) == Ok(UnattendOrEmpty(d)[k].s))
            && (k in un && !un[k].Str? ==> UnattendOrEmpty(d)[k] == un[k])
  {
    DecryptedUnattend(v, cfg);
    var d := DecryptUnattend(v, cfg).value;
    if k != UNATTEND {
      assert Lookup(d, k) == Lookup(d - {UNATTEND}, k) && Lookup(cfg, k) == Lookup(cfg - {UNATTEND}, k);
    }
  }

  lemma OverlayOf(def: Fields, per: Fields, un: Fields)
    requires un == UnattendOrEmpty(def) + UnattendOrEmpty(per)
    ensures un != map[] ==> MergeConfig(def, per) == ((def - {UNATTEND}) + (per - {UNATTEND}))[UNATTEND := Obj(un)]
  {
  }

  lemma MergedDecrypts(v: Vault, def: Fields, per: Fields, un: Fields)
    requires un == UnattendOrEmpty(def) + UnattendOrEmpty(per) && un != map[]
    requires forall k :: k in un ==> Readable(v, un[k])
    ensures DecryptUnattend(v, MergeConfig(def, per))
         == Ok(((def - {UNATTEND}) + (per - {UNATTEND}))[UNATTEND := Obj(DecryptFields(v, un))])
  {
    var merged := MergeConfig(def, per);
    OverlayOf(def, per, un);
    assert Unattend(merged) == Some(un);
    assert merged[UNATTEND := Obj(DecryptFields(v, un))]
           == ((def - {UNATTEND}) + (per - {UNATTEND}))[UNATTEND := Obj(DecryptFields(v, un))];
  }

  /** Decrypting after the overlay gives what overlaying the decrypted configs gives. */
  lemma DecryptCommutesWithMerge(v: Vault, def: Fields, per: Fields)
    requires DecryptUnattend(v, def).Ok? && DecryptUnattend(v, per).Ok?
    ensures DecryptUnattend(v, MergeConfig(def, per))
         == Ok(MergeConfig(DecryptUnattend(v, def).value, DecryptUnattend(v, per).value))
  {
    var ud, up := UnattendOrEmpty(def), UnattendOrEmpty(per);
    var d, p := DecryptUnattend(v, def).value, DecryptUnattend(v, per).value;
    DecryptedUnattend(v, def);
    DecryptedUnattend(v, per);
    DecryptFieldsMerges(v, ud, up);
    if ud + up != map[] {
      MergedDecrypts(v, def, per, ud + up);
      OverlayOf(d, p, DecryptFields(v, ud + up));
    } else {
      MergedUnattend(def, per);
      DecryptsToItself(v, MergeConfig(def, per));
    }
  }

  lemma DecryptsToItself(v: Vault, cfg: Fields)
    requires UnattendOrEmpty(cfg) == map[]
    ensures DecryptUnattend(v, cfg) == Ok(cfg)
  {
    if Unattend(cfg).Some? {
      assert Unattend(cfg).value == map[];
      assert DecryptUnattend(v, cfg).Ok?;
      DecryptedUnattend(v, cfg);
    }
  }

  /** The resolution fails exactly when a winning unattend string does not decrypt. */
  lemma ResolutionFailsExactly(v: Vault, def: Fields, per: Fields)
    ensures DecryptUnattend(v, MergeConfig(def, per)).Err? <==>
            exists k :: || (k in UnattendOrEmpty(per) && !Readable(v, UnattendOrEmpty(per)[k]))
                        || (k in UnattendOrEmpty(def) && k !in UnattendOrEmpty(per) && !Readable(v, UnattendOrEmpty(def)[k]))
  {
    var ud, up := UnattendOrEmpty(def), UnattendOrEmpty(per);
    var un := ud + up;
    if un == map[] {
      assert forall k :: k !in un && k in ud.Keys + up.Keys <==> false;
      forall k
        ensures k !in ud && k !in up
      {
        assert k in un <==> k in ud || k in up;
      }
    } else {
      assert Unattend(MergeConfig(def, per)) == Some(un);
    }
  }

  // ---- the same on Go's mutable maps: who shares what ----

  /** A nested JSON object, shared by reference. */
  class Block {
    var fields: Fields

    constructor (fields: Fields)
      ensures this.fields == fields
    {
      this.fields := fields;
    }
  }

  /** A top-level entry: a value other than an object, or a reference to a nested object. */
  datatype Slot = Plain(value: Json) | Ref(block: Block)

  ghost function SlotView(s: Slot): Json
    reads if s.Ref? then {s.block} else {}
  {
    if s.Plain? then s.value else Obj(s.block.fields)
  }

  type Doc = map<string, Slot>

  /** Separately parsed objects are never shared, inside one document or between two. */
  ghost predicate Tree(doc: Doc) {
    && (forall k :: k in doc && doc[k].Plain? ==> !doc[k].value.Obj?)
    && (forall j, k :: j in doc && k in doc && j != k && doc[j].Ref? ==> doc[j] != doc[k])
  }

  ghost predicate Disjoint(a: Doc, b: Doc) {
    forall j, k :: j in a && k in b && a[j].Ref? ==> a[j] != b[k]
  }

  ghost function Blocks(doc: Doc): set<Block> {
    set k | k in doc && doc[k].Ref? :: doc[k].block
  }

  /** The JSON value this object graph stands for. */
  ghost function View(doc: Doc): Fields
    reads Blocks(doc)
  {
    map k | k in doc :: SlotView(doc[k])
  }

  function UnattendBlock(doc: Doc): Option<Block> {
    if UNATTEND in doc && doc[UNATTEND].Ref? then Some(doc[UNATTEND].block) else None
  }

  method CopyFields(into: Fields, from: Fields) returns (un: Fields)
    ensures un == into + from
  {
    un := into;
    var todo := from.Keys;
    while todo != {}
      invariant todo <= from.Keys
      invariant un == into + (from - todo)
      decreases todo
    {
      var k :| k in todo;
      todo := todo - {k};
      un := un[k := from[k]];
    }
  }

  /** The two loops over the top level: everything of the default, then everything but unattend of the other. */
  method MergeTop(def: Doc, per: Doc) returns (out: Doc)
    ensures out == def + (per - {UNATTEND})
  {
    out := map[];
    var todo := def.Keys;
    while todo != {}
      invariant todo <= def.Keys && out == def - todo
      decreases todo
    {
      var k :| k in todo;
      todo := todo - {k};
      out := out[k := def[k]];
    }
    todo := per.Keys;
    while todo != {}
      invariant todo <= per.Keys && out == def + (per - todo - {UNATTEND})
      decreases todo
    {
      var k :| k in todo;
      todo := todo - {k};
      if k != UNATTEND {
        out := out[k := per[k]];
      }
    }
  }

  lemma EmptyMerge(ud: Fields, up: Fields)
    requires ud + up == map[]
    ensures ud == map[] && up == map[]
  {
  }

  lemma TopView(def: Doc, per: Doc)
    requires Tree(def) && Tree(per) && Disjoint(def, per)
    ensures Tree(def + (per - {UNATTEND}))
    ensures View(def + (per - {UNATTEND})) == View(def) + (View(per) - {UNATTEND})
  {
  }

  lemma UnattendView(doc: Doc)
    requires Tree(doc)
    ensures UnattendOrEmpty(View(doc)) == if UnattendBlock(doc).Some? then UnattendBlock(doc).value.fields else map[]
  {
  }

  method MergeUnattend(def: Doc, per: Doc) returns (un: Fields)
    requires Tree(def) && Tree(per)
    ensures un == old(UnattendOrEmpty(View(def))) + old(UnattendOrEmpty(View(per)))
  {
    UnattendView(def);
    UnattendView(per);
    un := map[];
    if UnattendBlock(def).Some? {
      un := CopyFields(un, UnattendBlock(def).value.fields);
    }
    if UnattendBlock(per).Some? {
      un := CopyFields(un, UnattendBlock(per).value.fields);
    }
  }

  method WithUnattend(doc: Doc, un: Fields) returns (out: Doc)
    requires Tree(doc)
    ensures Tree(out) && View(out) == old(View(doc))[UNATTEND := Obj(un)]
    ensures UnattendBlock(out).Some? && fresh(UnattendBlock(out).value)
  {
    var b := new Block(un);
    out := doc[UNATTEND := Ref(b)];
  }

  /** The overlay writes to neither input. The merged unattend block is new, unless it is empty: then the
      default's own (empty or non-object) value is shared. */
  method MergeDocs(def: Doc, per: Doc) returns (out: Doc)
    requires Tree(def) && Tree(per) && Disjoint(def, per)
    ensures Tree(out)
    ensures View(out) == MergeConfig(old(View(def)), old(View(per)))
    ensures UnattendBlock(out).Some? ==>
              || fresh(UnattendBlock(out).value)
              || (UnattendBlock(out) == UnattendBlock(def) && UnattendBlock(out).value.fields == map[])
  {
    ghost var vd, vp := View(def), View(per);
    TopView(def, per);
    ghost var top := View(def + (per - {UNATTEND}));
    UnattendView(def);
    var un := MergeUnattend(def, per);
    out := MergeTop(def, per);
    assert View(out) == top;
    if un == map[] {
      EmptyMerge(UnattendOrEmpty(vd), UnattendOrEmpty(vp));
      return;
    }
    out := WithUnattend(out, un);
    assert View(out) == top[UNATTEND := Obj(un)];
  }

  /** Decrypts the block in place, stopping at the first failure. An empty block is not written. */
  method DecryptBlock(v: Vault, b: Block) returns (ok: bool)
    modifies if b.fields != map[] then {b} else {}
    ensures ok <==> forall k :: k in old(b.fields) ==> Readable(v, old(b.fields)[k])
    ensures ok ==> b.fields == DecryptFields(v, old(b.fields))
  {
    ghost var was := b.fields;
    var todo := b.fields.Keys;
    while todo != {}
      invariant todo <= was.Keys == b.fields.Keys
      invariant forall k :: k in todo ==> b.fields[k] == was[k]
      invariant forall k :: k in was && k !in todo ==> Readable(v, was[k]) && b.fields[k] == DecryptValue(v, was[k])
      decreases todo
    {
      var k :| k in todo;
      todo := todo - {k};
      if b.fields[k].Str? && IsEncrypted(b.fields[k].s) {
        var dec := ApiDecryptSecret(v.suite, v.master, b.fields[k].s);
        if dec.Err? {
          return false;
        }
        b.fields := b.fields[k := Str(dec.value)];
      }
    }
    assert b.fields == DecryptFields(v, was);
    ok := true;
  }

  method DecryptDoc(v: Vault, cfg: Doc) returns (ok: bool)
    requires Tree(cfg)
    modifies if UnattendBlock(cfg).Some? && UnattendBlock(cfg).value.fields != map[] then {UnattendBlock(cfg).value} else {}
    ensures ok <==> DecryptUnattend(v, old(View(cfg))).Ok?
    ensures ok ==> View(cfg) == DecryptUnattend(v, old(View(cfg))).value
  {
    if UnattendBlock(cfg).None? {
      return true;
    }
    var b := UnattendBlock(cfg).value;
    ghost var was := b.fields;
    assert Unattend(View(cfg)) == Some(was);
    ok := DecryptBlock(v, b);
    if ok {
      assert View(cfg) == old(View(cfg))[UNATTEND := Obj(DecryptFields(v, was))];
    }
  }

  /** resolveConfig once both files are parsed. It has no modifies clause: whatever the merged document
      shares with its inputs, decrypting it writes to neither of them. */
  method ResolveDocs(v: Vault, def: Doc, per: Doc) returns (out: Doc, ok: bool)
    requires Tree(def) && Tree(per) && Disjoint(def, per)
    ensures var merged := MergeConfig(old(View(def)), old(View(per)));
            && (ok <==> DecryptUnattend(v, merged).Ok?)
            && (ok ==> View(out) == DecryptUnattend(v, merged).value)
  {
    out := MergeDocs(def, per);
    ok := DecryptDoc(v, out);
  }
}
