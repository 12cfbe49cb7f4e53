/** The merge of a run's successful downloads into the models configuration
    (`new_config_file_contents` in scripts/load_models.py). The YAML document
    is taken as already parsed: an ordered mapping from model names to
    stanzas, each stanza a mapping from field names to values. */
module ConfigMerge {
  import opened Common
  import opened Catalog

  /** A stanza field: the scalars this merge writes, or any other YAML value,
      kept opaque. */
  datatype Value = Str(s: string) | Int(i: int) | Bool(b: bool) | Node(yaml: string)

  type Stanza = map<string, Value>

  /** The loaded document, in its key order. */
  type Doc = seq<(string, Stanza)>

  /** The fields the merge writes from the catalog on every processed model. */
  const OwnedFields: set<string> := {"description", "weights", "config", "width", "height"}

  // ---------------------------------------------------------------------
  // The ordered mapping

  function DocKeys(doc: Doc): (r: seq<string>)
    ensures |r| == |doc|
    ensures forall i :: 0 <= i < |doc| ==> r[i] == doc[i].0
  {
    seq(|doc|, i requires 0 <= i < |doc| => doc[i].0)
  }

  /** A YAML mapping has each key at most once. */
  predicate DistinctKeys(doc: Doc) {
    Distinct(DocKeys(doc))
  }

  /** `conf[key]` when `key in conf`. */
  function Find(doc: Doc, key: string): Option<Stanza>
    decreases |doc|
  {
    if doc == [] then None
    else if doc[0].0 == key then Some(doc[0].1)
    else Find(doc[1..], key)
  }

  /** `conf[key] if key in conf else {}`. */
  function FindOrEmpty(doc: Doc, key: string): Stanza {
    match Find(doc, key)
    case Some(s) => s
    case None => map[]
  }

  /** `conf[key] = stanza`: an existing key keeps its place, a new one goes
      last. */
  function Upsert(doc: Doc, key: string, stanza: Stanza): Doc
    decreases |doc|
  {
    if doc == [] then [(key, stanza)]
    else if doc[0].0 == key then [(key, stanza)] + doc[1..]
    else [doc[0]] + Upsert(doc[1..], key, stanza)
  }

  lemma {:induction false} FindUpsert(doc: Doc, key: string, stanza: Stanza, j: string)
    ensures Find(Upsert(doc, key, stanza), j) == if j == key then Some(stanza) else Find(doc, j)
    decreases |doc|
  {
    if doc != [] && doc[0].0 != key {
      FindUpsert(doc[1..], key, stanza, j);
      assert Upsert(doc, key, stanza)[1..] == Upsert(doc[1..], key, stanza);
    } else if doc != [] {
      assert Upsert(doc, key, stanza)[1..] == doc[1..];
    }
  }

  lemma {:induction false} FindPresent(doc: Doc, key: string)
    ensures Find(doc, key).Some? <==> key in DocKeys(doc)
    decreases |doc|
  {
    if doc != [] {
      FindPresent(doc[1..], key);
      assert DocKeys(doc) == [doc[0].0] + DocKeys(doc[1..]);
    }
  }

  /** With distinct keys, looking up the key at a position gives that
      position's stanza. */
  lemma {:induction false} FindAt(doc: Doc, i: nat)
    requires DistinctKeys(doc) && i < |doc|
    ensures Find(doc, doc[i].0) == Some(doc[i].1)
    decreases i
  {
    if i > 0 {
      assert DocKeys(doc[1..]) == DocKeys(doc)[1..];
      assert doc[1..][i - 1] == doc[i];
      FindAt(doc[1..], i - 1);
      assert DocKeys(doc)[0] != DocKeys(doc)[i];
    }
  }

  lemma DocKeysCons(x: (string, Stanza), rest: Doc)
    ensures DocKeys([x] + rest) == [x.0] + DocKeys(rest)
  {
    assert forall i :: 0 < i <= |rest| ==> ([x] + rest)[i] == rest[i - 1];
  }

  lemma {:induction false} DocKeysUpsert(doc: Doc, key: string, stanza: Stanza)
    ensures DocKeys(Upsert(doc, key, stanza)) ==
            if key in DocKeys(doc) then DocKeys(doc) else DocKeys(doc) + [key]
    decreases |doc|
  {
    if doc != [] {
      var rest := doc[1..];
      assert doc == [doc[0]] + rest;
      DocKeysCons(doc[0], rest);
      if doc[0].0 == key {
        DocKeysCons((key, stanza), rest);
      } else {
        DocKeysUpsert(rest, key, stanza);
        DocKeysCons(doc[0], Upsert(rest, key, stanza));
      }
    }
  }

  /** Two mappings with the same keys in the same order and the same lookups
      are the same document. */
  lemma DocExtensional(a: Doc, b: Doc)
    requires DistinctKeys(a) && DocKeys(a) == DocKeys(b)
    requires forall j :: Find(a, j) == Find(b, j)
    ensures a == b
  {
    forall i | 0 <= i < |a|
      ensures a[i] == b[i]
    {
      assert DocKeys(a)[i] == DocKeys(b)[i];
      FindAt(a, i);
      FindAt(b, i);
    }
  }

  // ---------------------------------------------------------------------
  // The merge, as a specification

  /** The file of the autoencoder last downloaded, if any (the first loop of
      `new_config_file_contents`). */
  function LastVae(keys: seq<string>): Option<string>
    requires AllInCatalog(keys)
  {
    if keys == [] then None
    else if IsVae(keys[|keys| - 1]) then Some(Datasets[keys[|keys| - 1]].file)
    else LastVae(keys[..|keys| - 1])
  }

  /** The first key that is a model rather than the autoencoder. */
  function FirstPrimary(keys: seq<string>): Option<string>
    requires AllInCatalog(keys)
  {
    if keys == [] then None
    else if !IsVae(keys[0]) then Some(keys[0])
    else FirstPrimary(keys[1..])
  }

  /** The model keys, in order. */
  function Primaries(keys: seq<string>): seq<string>
    requires AllInCatalog(keys)
  {
    if keys == [] then []
    else if IsVae(keys[0]) then Primaries(keys[1..])
    else [keys[0]] + Primaries(keys[1..])
  }

  /** Python truthiness of the autoencoder file (`if vae:`): present and not
      empty. */
  predicate VaeGiven(vae: Option<string>) {
    vae.Some? && vae.value != ""
  }

  /** The stanza written for a model: its previous fields, the catalog's owned
      fields over them, no `default`, the autoencoder path when one was
      downloaded, and `default: True` when it is the first model. */
  function Rewrite(prev: Stanza, key: string, vae: Option<string>, first: bool): Stanza
    requires key in Datasets
  {
    var d := Datasets[key];
    var owned := prev["description" := Str(d.description)]
                    ["weights" := Str(WeightsPath(d.file))]
                    ["config" := Str(ConfigPath(d.config))]
                    ["width" := Int(d.width)]
                    ["height" := Int(d.height)];
    var undefaulted := owned - {"default"};
    var withVae := if VaeGiven(vae) then undefaulted["vae" := Str(WeightsPath(vae.value))] else undefaulted;
    if first then withVae["default" := Bool(true)] else withVae
  }

  /** The second loop of `new_config_file_contents` over the keys still to
      go; `selected` is its `default_selected` flag. */
  function Merge(doc: Doc, keys: seq<string>, vae: Option<string>, selected: bool): Doc
    requires AllInCatalog(keys)
    decreases |keys|
  {
    if keys == [] then doc
    else if IsVae(keys[0]) then Merge(doc, keys[1..], vae, selected)
    else Merge(Upsert(doc, keys[0], Rewrite(FindOrEmpty(doc, keys[0]), keys[0], vae, !selected)),
               keys[1..], vae, true)
  }

  /** The document `new_config_file_contents` serialises. */
  function NewConfig(conf: Doc, keys: seq<string>): Doc
    requires AllInCatalog(keys)
  {
    Merge(conf, keys, LastVae(keys), false)
  }

  // ---------------------------------------------------------------------
  // The merge, as the source runs it

  /** `new_config_file_contents` up to the YAML dump: `loaded` is the parsed
      existing file (None when there is none), `successful` the keys of the
      batch result in their order. */
  method NewConfigFileContents(successful: seq<string>, loaded: Option<Doc>) returns (conf: Doc)
    requires AllInCatalog(successful)
    ensures conf == NewConfig(if loaded.Some? then loaded.value else [], successful)
  {
    conf := if loaded.Some? then loaded.value else [];
    ghost var start := conf;

    // find the autoencoder file, if there is one
    var vae: Option<string> := None;
    var defaultSelected := false;
    var i := 0;
    while i < |successful|
      invariant 0 <= i <= |successful|
      invariant vae == LastVae(successful[..i])
    {
      assert successful[..i + 1][..i] == successful[..i];
      if Datasets[successful[i]].config == VaeConfig {
        vae := Some(Datasets[successful[i]].file);
      }
      i := i + 1;
    }
    assert successful[..i] == successful;

    i := 0;
    while i < |successful|
      invariant 0 <= i <= |successful|
      invariant NewConfig(start, successful) == Merge(conf, successful[i..], vae, defaultSelected)
    {
      var model := successful[i];
      assert successful[i..][0] == model && successful[i..][1..] == successful[i + 1..];
      if Datasets[model].config == VaeConfig {
        i := i + 1;
        continue;
      }
      ghost var first := !defaultSelected;
      var stanza := FindOrEmpty(conf, model);
      ghost var prev := stanza;
      var d := Datasets[model];
      stanza := stanza["description" := Str(d.description)];
      stanza := stanza["weights" := Str(WeightsPath(d.file))];
      stanza := stanza["config" := Str(ConfigPath(d.config))];
      stanza := stanza["width" := Int(d.width)];
      stanza := stanza["height" := Int(d.height)];
      stanza := stanza - {"default"};
      if vae.Some? && vae.value != "" {
        stanza := stanza["vae" := Str(WeightsPath(vae.value))];
      }
      if !defaultSelected {
        stanza := stanza["default" := Bool(true)];
        defaultSelected := true;
      }
      assert stanza == Rewrite(prev, model, vae, first);
      conf := Upsert(conf, model, stanza);
      i := i + 1;
    }
  }

  // ---------------------------------------------------------------------
  // What the merge does to each entry

  /** Where every key ends up after the merge: a processed model holds its
      rewritten stanza, marked default exactly when it is the first model and
      no default was chosen yet; every other key keeps what it had. */
  lemma {:induction false} MergeFind(doc: Doc, keys: seq<string>, vae: Option<string>, selected: bool, j: string)
    requires AllInCatalog(keys) && Distinct(keys)
    ensures Find(Merge(doc, keys, vae, selected), j) ==
            if j in keys && !IsVae(j)
            then Some(Rewrite(FindOrEmpty(doc, j), j, vae, !selected && FirstPrimary(keys) == Some(j)))
            else Find(doc, j)
    decreases |keys|
  {
    if keys != [] {
      var k, rest := keys[0], keys[1..];
      assert keys == [k] + rest;
      assert Distinct(rest) && AllInCatalog(rest);
      assert k !in rest;
      if IsVae(k) {
        MergeFind(doc, rest, vae, selected, j);
      } else {
        var doc' := Upsert(doc, k, Rewrite(FindOrEmpty(doc, k), k, vae, !selected));
        MergeFind(doc', rest, vae, true, j);
        FindUpsert(doc, k, Rewrite(FindOrEmpty(doc, k), k, vae, !selected), j);
      }
    }
  }

  /** Keys outside the successful set, and the autoencoder's key, are left
      exactly as they were: the autoencoder never gets a stanza of its own. */
  lemma UntouchedEntriesPreserved(conf: Doc, keys: seq<string>, j: string)
    requires AllInCatalog(keys) && Distinct(keys)
    requires j !in keys || IsVae(j)
    ensures Find(NewConfig(conf, keys), j) == Find(conf, j)
  {
    MergeFind(conf, keys, LastVae(keys), false, j);
  }

  /** What a processed model's stanza holds, given the stanza it had: the
      owned fields from the catalog (even where they had been edited by
      hand), every other field but `vae` and `default` as it was, `vae` the
      downloaded autoencoder's path when there is one and as it was
      otherwise, and `default`, True, exactly on the first model. */
  ghost predicate Written(s: Stanza, prev: Stanza, key: string, vae: Option<string>, first: bool)
    requires key in Datasets
  {
    OwnedWritten(s, key) && OthersKept(s, prev) && VaeWritten(s, prev, vae) && DefaultWritten(s, first)
  }

  ghost predicate OwnedWritten(s: Stanza, key: string)
    requires key in Datasets
  {
    var d := Datasets[key];
    && OwnedFields <= s.Keys
    && s["description"] == Str(d.description)
    && s["weights"] == Str("models/ldm/stable-diffusion-v1/" + d.file)
    && s["config"] == Str("configs/stable-diffusion/" + d.config)
    && s["width"] == Int(d.width)
    && s["height"] == Int(d.height)
  }

  ghost predicate OthersKept(s: Stanza, prev: Stanza) {
    forall f :: f !in OwnedFields && f != "vae" && f != "default" ==>
      (f in s <==> f in prev) && (f in s ==> s[f] == prev[f])
  }

  ghost predicate VaeWritten(s: Stanza, prev: Stanza, vae: Option<string>) {
    && (VaeGiven(vae) ==> "vae" in s && s["vae"] == Str("models/ldm/stable-diffusion-v1/" + vae.value))
    && (!VaeGiven(vae) ==> ("vae" in s <==> "vae" in prev) && ("vae" in s ==> s["vae"] == prev["vae"]))
  }

  ghost predicate DefaultWritten(s: Stanza, first: bool) {
    && ("default" in s <==> first)
    && ("default" in s ==> s["default"] == Bool(true))
  }

  lemma RewriteWritten(prev: Stanza, key: string, vae: Option<string>, first: bool)
    requires key in Datasets
    requires vae.Some? ==> vae.value == [] || vae.value[0] != Sep
    ensures Written(Rewrite(prev, key, vae, first), prev, key, vae, first)
  {
    RewriteOwned(prev, key, vae, first);
    RewriteKeeps(prev, key, vae, first);
    RewriteVae(prev, key, vae, first);
  }

  lemma RewriteOwned(prev: Stanza, key: string, vae: Option<string>, first: bool)
    requires key in Datasets
    ensures OwnedWritten(Rewrite(prev, key, vae, first), key)
  {
    CatalogFilesRelative();
    WeightsPathShape(Datasets[key].file);
  }

  lemma RewriteKeeps(prev: Stanza, key: string, vae: Option<string>, first: bool)
    requires key in Datasets
    ensures OthersKept(Rewrite(prev, key, vae, first), prev)
  {
  }

  lemma RewriteVae(prev: Stanza, key: string, vae: Option<string>, first: bool)
    requires key in Datasets
    requires vae.Some? ==> vae.value == [] || vae.value[0] != Sep
    ensures VaeWritten(Rewrite(prev, key, vae, first), prev, vae)
    ensures DefaultWritten(Rewrite(prev, key, vae, first), first)
  {
    if VaeGiven(vae) {
      WeightsPathShape(vae.value);
    }
  }

  /** The stanza a processed model ends up with. */
  lemma ProcessedStanza(conf: Doc, keys: seq<string>, j: string)
    requires AllInCatalog(keys) && Distinct(keys)
    requires j in keys && !IsVae(j)
    ensures Find(NewConfig(conf, keys), j).Some?
    ensures Written(Find(NewConfig(conf, keys), j).value, FindOrEmpty(conf, j), j,
                    LastVae(keys), FirstPrimary(keys) == Some(j))
  {
    MergeFind(conf, keys, LastVae(keys), false, j);
    LastVaeFile(keys);
    CatalogFilesRelative();
    RewriteWritten(FindOrEmpty(conf, j), j, LastVae(keys), FirstPrimary(keys) == Some(j));
  }

  // ---------------------------------------------------------------------
  // The autoencoder and the default

  /** `LastVae` is the file of the autoencoder key that no other autoencoder
      key follows, and None exactly when no autoencoder was downloaded. */
  lemma {:induction false} LastVaeIsLast(keys: seq<string>)
    requires AllInCatalog(keys)
    ensures LastVae(keys).None? <==> forall i :: 0 <= i < |keys| ==> !IsVae(keys[i])
    ensures LastVae(keys).Some? ==>
            exists i :: 0 <= i < |keys| && IsVae(keys[i]) && LastVae(keys).value == Datasets[keys[i]].file &&
                        forall k :: i < k < |keys| ==> !IsVae(keys[k])
  {
    if keys != [] {
      var init := keys[..|keys| - 1];
      LastVaeIsLast(init);
      if !IsVae(keys[|keys| - 1]) {
        if LastVae(init).Some? {
          var i :| 0 <= i < |init| && IsVae(init[i]) && LastVae(init).value == Datasets[init[i]].file &&
                   forall k :: i < k < |init| ==> !IsVae(init[k]);
          assert keys[i] == init[i];
          assert forall k :: i < k < |keys| ==> !IsVae(keys[k]) by {
            forall k | i < k < |keys| ensures !IsVae(keys[k]) {
              if k < |init| { assert keys[k] == init[k]; }
            }
          }
        } else {
          forall i | 0 <= i < |keys| ensures !IsVae(keys[i]) {
            if i < |init| { assert keys[i] == init[i]; }
          }
        }
      }
    }
  }

  lemma {:induction false} LastVaeFile(keys: seq<string>)
    requires AllInCatalog(keys)
    ensures LastVae(keys).Some? ==> exists k :: k in Datasets && LastVae(keys).value == Datasets[k].file
  {
    if keys != [] && !IsVae(keys[|keys| - 1]) {
      LastVaeFile(keys[..|keys| - 1]);
    }
  }

  /** `FirstPrimary` is the model key that only autoencoder keys precede. */
  lemma {:induction false} FirstPrimaryIsFirst(keys: seq<string>)
    requires AllInCatalog(keys)
    ensures FirstPrimary(keys).None? <==> forall i :: 0 <= i < |keys| ==> IsVae(keys[i])
    ensures FirstPrimary(keys).Some? ==>
            exists i :: 0 <= i < |keys| && keys[i] == FirstPrimary(keys).value && !IsVae(keys[i]) &&
                        forall k :: 0 <= k < i ==> IsVae(keys[k])
    decreases |keys|
  {
    if keys != [] && IsVae(keys[0]) {
      var rest := keys[1..];
      FirstPrimaryIsFirst(rest);
      if FirstPrimary(rest).Some? {
        var i :| 0 <= i < |rest| && rest[i] == FirstPrimary(rest).value && !IsVae(rest[i]) &&
                 forall k :: 0 <= k < i ==> IsVae(rest[k]);
        assert keys[i + 1] == rest[i];
        forall k | 0 <= k < i + 1 ensures IsVae(keys[k]) {
          if k > 0 { assert keys[k] == rest[k - 1]; }
        }
      } else {
        forall i | 0 <= i < |keys| ensures IsVae(keys[i]) {
          if i > 0 { assert keys[i] == rest[i - 1]; }
        }
      }
    } else if keys != [] {
      assert keys[0] == FirstPrimary(keys).value;
    }
  }

  /** Among the processed models exactly one carries `default` (the first);
      a default on an entry the run did not touch stays, so the result can
      hold two of them. */
  lemma DefaultOnlyOnFirst(conf: Doc, keys: seq<string>, j: string, k: string)
    requires AllInCatalog(keys) && Distinct(keys)
    requires j in keys && !IsVae(j) && k in keys && !IsVae(k)
    requires Find(NewConfig(conf, keys), j).Some? && "default" in Find(NewConfig(conf, keys), j).value
    requires Find(NewConfig(conf, keys), k).Some? && "default" in Find(NewConfig(conf, keys), k).value
    ensures j == k
  {
    ProcessedStanza(conf, keys, j);
    ProcessedStanza(conf, keys, k);
  }

  /** A concrete document where the merge leaves two defaults: the earlier
      default on a model this run did not download survives. */
  lemma TwoDefaultsPossible()
    ensures var conf := [("waifu-diffusion-1.3", map["default" := Bool(true)])];
            var result := NewConfig(conf, ["stable-diffusion-1.5"]);
            && Find(result, "waifu-diffusion-1.3").Some?
            && Find(result, "waifu-diffusion-1.3").value["default"] == Bool(true)
            && Find(result, "stable-diffusion-1.5").Some?
            && Find(result, "stable-diffusion-1.5").value["default"] == Bool(true)
  {
    var conf := [("waifu-diffusion-1.3", map["default" := Bool(true)])];
    var keys := ["stable-diffusion-1.5"];
    UntouchedEntriesPreserved(conf, keys, "waifu-diffusion-1.3");
    ProcessedStanza(conf, keys, "stable-diffusion-1.5");
  }

  // ---------------------------------------------------------------------
  // Key order, and running the merge on its own output

  /** `ks` followed by the entries of `extra` it lacks, in order. */
  function AppendMissing(ks: seq<string>, extra: seq<string>): seq<string>
    decreases |extra|
  {
    if extra == [] then ks
    else AppendMissing(if extra[0] in ks then ks else ks + [extra[0]], extra[1..])
  }

  lemma {:induction false} AppendMissingFacts(ks: seq<string>, extra: seq<string>)
    ensures forall x :: x in AppendMissing(ks, extra) <==> x in ks || x in extra
    ensures Distinct(ks) ==> Distinct(AppendMissing(ks, extra))
    ensures (forall x :: x in extra ==> x in ks) ==> AppendMissing(ks, extra) == ks
    decreases |extra|
  {
    if extra != [] {
      var next := if extra[0] in ks then ks else ks + [extra[0]];
      AppendMissingFacts(next, extra[1..]);
      assert extra == [extra[0]] + extra[1..];
    }
  }

  lemma {:induction false} PrimariesMembers(keys: seq<string>)
    requires AllInCatalog(keys)
    ensures forall x :: x in Primaries(keys) <==> x in keys && !IsVae(x)
    decreases |keys|
  {
    if keys != [] {
      PrimariesMembers(keys[1..]);
      assert keys == [keys[0]] + keys[1..];
    }
  }

  /** The merged document lists the old keys in their old order, then the
      newly downloaded models in download order. */
  lemma {:induction false} MergeKeys(doc: Doc, keys: seq<string>, vae: Option<string>, selected: bool)
    requires AllInCatalog(keys)
    ensures DocKeys(Merge(doc, keys, vae, selected)) == AppendMissing(DocKeys(doc), Primaries(keys))
    decreases |keys|
  {
    if keys != [] {
      if IsVae(keys[0]) {
        MergeKeys(doc, keys[1..], vae, selected);
      } else {
        var st := Rewrite(FindOrEmpty(doc, keys[0]), keys[0], vae, !selected);
        DocKeysUpsert(doc, keys[0], st);
        MergeKeys(Upsert(doc, keys[0], st), keys[1..], vae, true);
      }
    }
  }

  lemma NewConfigKeys(conf: Doc, keys: seq<string>)
    requires AllInCatalog(keys) && DistinctKeys(conf)
    ensures DocKeys(NewConfig(conf, keys)) == AppendMissing(DocKeys(conf), Primaries(keys))
    ensures DistinctKeys(NewConfig(conf, keys))
  {
    MergeKeys(conf, keys, LastVae(keys), false);
    AppendMissingFacts(DocKeys(conf), Primaries(keys));
  }

  /** Rewriting a stanza twice with the same arguments changes nothing more. */
  lemma RewriteIdempotent(s: Stanza, key: string, vae: Option<string>, first: bool)
    requires key in Datasets
    ensures Rewrite(Rewrite(s, key, vae, first), key, vae, first) == Rewrite(s, key, vae, first)
  {
    var once := Rewrite(s, key, vae, first);
    var twice := Rewrite(once, key, vae, first);
    assert twice.Keys == once.Keys;
    assert forall f :: f in once ==> twice[f] == once[f];
  }

  /** Re-running the merge on its own output with the same downloads yields
      the same document. */
  lemma NewConfigIdempotent(conf: Doc, keys: seq<string>)
    requires AllInCatalog(keys) && Distinct(keys) && DistinctKeys(conf)
    ensures NewConfig(NewConfig(conf, keys), keys) == NewConfig(conf, keys)
  {
    var once := NewConfig(conf, keys);
    var twice := NewConfig(once, keys);
    NewConfigKeys(conf, keys);
    NewConfigKeys(once, keys);
    PrimariesMembers(keys);
    AppendMissingFacts(DocKeys(conf), Primaries(keys));
    AppendMissingFacts(DocKeys(once), Primaries(keys));
    forall j
      ensures Find(twice, j) == Find(once, j)
    {
      MergeFind(once, keys, LastVae(keys), false, j);
      MergeFind(conf, keys, LastVae(keys), false, j);
      if j in keys && !IsVae(j) {
        RewriteIdempotent(FindOrEmpty(conf, j), j, LastVae(keys), FirstPrimary(keys) == Some(j));
      }
    }
    DocExtensional(twice, once);
  }

  // ---------------------------------------------------------------------
  // A first installation

  /** The recommended set merged into a missing configuration file: one
      stanza per model, in download order, the first one the default, both
      pointing at the downloaded autoencoder, and none for the autoencoder. */
  lemma FreshRecommendedConfig()
    ensures var keys := ["stable-diffusion-1.5", "inpainting-1.5", "ft-mse-improved-autoencoder-840000"];
            var doc := NewConfig([], keys);
            var vaePath := Str("models/ldm/stable-diffusion-v1/" + "vae-ft-mse-840000-ema-pruned.ckpt");
            && DocKeys(doc) == ["stable-diffusion-1.5", "inpainting-1.5"]
            && Find(doc, "stable-diffusion-1.5").Some?
            && "default" in Find(doc, "stable-diffusion-1.5").value
            && Find(doc, "stable-diffusion-1.5").value["default"] == Bool(true)
            && "vae" in Find(doc, "stable-diffusion-1.5").value
            && Find(doc, "stable-diffusion-1.5").value["vae"] == vaePath
            && Find(doc, "inpainting-1.5").Some?
            && "default" !in Find(doc, "inpainting-1.5").value
            && "vae" in Find(doc, "inpainting-1.5").value
            && Find(doc, "inpainting-1.5").value["vae"] == vaePath
  {
    var keys := ["stable-diffusion-1.5", "inpainting-1.5", "ft-mse-improved-autoencoder-840000"];
    RecommendedKeyFacts();
    var vae := LastVae(keys);
    var doc := NewConfig([], keys);
    NewConfigKeys([], keys);
    assert DocKeys(doc) == ["stable-diffusion-1.5", "inpainting-1.5"];
    ProcessedStanza([], keys, "stable-diffusion-1.5");
    var s1 := Find(doc, "stable-diffusion-1.5").value;
    assert Written(s1, FindOrEmpty([], "stable-diffusion-1.5"), "stable-diffusion-1.5", vae, true);
    ProcessedStanza([], keys, "inpainting-1.5");
    var s2 := Find(doc, "inpainting-1.5").value;
    assert Written(s2, FindOrEmpty([], "inpainting-1.5"), "inpainting-1.5", vae, false);
  }

  lemma RecommendedKeyFacts()
    ensures var keys := ["stable-diffusion-1.5", "inpainting-1.5", "ft-mse-improved-autoencoder-840000"];
            && AllInCatalog(keys) && Distinct(keys)
            && LastVae(keys) == Some("vae-ft-mse-840000-ema-pruned.ckpt")
            && FirstPrimary(keys) == Some("stable-diffusion-1.5")
            && AppendMissing([], Primaries(keys)) == ["stable-diffusion-1.5", "inpainting-1.5"]
  {
    var keys := ["stable-diffusion-1.5", "inpainting-1.5", "ft-mse-improved-autoencoder-840000"];
    assert keys[1..] == ["inpainting-1.5", "ft-mse-improved-autoencoder-840000"];
    assert keys[1..][1..] == ["ft-mse-improved-autoencoder-840000"];
    assert Primaries(keys) == ["stable-diffusion-1.5", "inpainting-1.5"];
    var p := ["stable-diffusion-1.5", "inpainting-1.5"];
    assert p[1..] == ["inpainting-1.5"];
    assert ([] + ["stable-diffusion-1.5"]) + ["inpainting-1.5"] == p;
  }
}
