/** The batch driver (`download_weight_datasets` in scripts/load_models.py):
    every selected catalog key is tried in turn, and the cached access token
    is saved or deleted depending on whether all of them succeeded. The
    per-file transfer is abstracted as a function from the destination path
    to its returned flag. */
module Batch {
  import opened Common
  import opened Catalog

  /** The cached Hugging Face token (`HfFolder`): only save and delete are
      used here. */
  class TokenStore {
    var token: Option<string>

    constructor (initial: Option<string>)
      ensures token == initial
    {
      token := initial;
    }

    /** `HfFolder.save_token`. */
    method Save(t: string)
      modifies this
      ensures token == Some(t)
    {
      token := Some(t);
    }

    /** `HfFolder.delete_token`. */
    method Delete()
      modifies this
      ensures token == None
    {
      token := None;
    }
  }

  /** `os.path.join(os.path.join(root, Model_dir, Weights_dir), file)`: where
      the weight file of a catalog key is stored. */
  function Destination(root: string, key: string): string
    requires key in Datasets
  {
    PathJoin(PathJoin(PathJoin(root, ModelDir), WeightsDir), Datasets[key].file)
  }

  /** The destinations of `keys`, in order. */
  function Destinations(root: string, keys: seq<string>): (r: seq<string>)
    requires AllInCatalog(keys)
    ensures |r| == |keys|
    ensures forall i :: 0 <= i < |keys| ==> r[i] == Destination(root, keys[i])
  {
    seq(|keys|, i requires 0 <= i < |keys| => Destination(root, keys[i]))
  }

  /** The keys of `keys` whose transfer succeeds, in order. */
  function Succeeded(root: string, keys: seq<string>, fetch: string -> bool): seq<string>
    requires AllInCatalog(keys)
  {
    if keys == [] then []
    else
      var init := Succeeded(root, keys[..|keys| - 1], fetch);
      if fetch(Destination(root, keys[|keys| - 1])) then init + [keys[|keys| - 1]] else init
  }

  /** Fewer successes than keys exactly when some transfer failed; with no
      failure the successes are the keys themselves. */
  lemma {:induction false} SucceededCount(root: string, keys: seq<string>, fetch: string -> bool)
    requires AllInCatalog(keys)
    ensures |Succeeded(root, keys, fetch)| <= |keys|
    ensures |Succeeded(root, keys, fetch)| < |keys| <==>
            exists i :: 0 <= i < |keys| && !fetch(Destination(root, keys[i]))
    ensures (forall i :: 0 <= i < |keys| ==> fetch(Destination(root, keys[i]))) ==>
            Succeeded(root, keys, fetch) == keys
  {
    if keys != [] {
      var init := keys[..|keys| - 1];
      SucceededCount(root, init, fetch);
      assert keys == init + [keys[|keys| - 1]];
      if exists i :: 0 <= i < |init| && !fetch(Destination(root, init[i])) {
        var i :| 0 <= i < |init| && !fetch(Destination(root, init[i]));
        assert keys[i] == init[i];
      }
      if exists i :: 0 <= i < |keys| && !fetch(Destination(root, keys[i])) {
        var i :| 0 <= i < |keys| && !fetch(Destination(root, keys[i]));
        if i < |init| {
          assert init[i] == keys[i];
        }
      }
    }
  }

  /** The loop of `download_weight_datasets`: every key is tried, in order,
      whatever happened to the earlier ones; `attempted` lists the
      destinations handed to the transfer. */
  method AttemptAll(root: string, keys: seq<string>, fetch: string -> bool)
    returns (successful: seq<string>, attempted: seq<string>)
    requires AllInCatalog(keys)
    ensures attempted == Destinations(root, keys)
    ensures successful == Succeeded(root, keys, fetch)
  {
    successful, attempted := [], [];
    var i := 0;
    while i < |keys|
      invariant 0 <= i <= |keys|
      invariant attempted == Destinations(root, keys[..i])
      invariant successful == Succeeded(root, keys[..i], fetch)
    {
      assert keys[..i + 1][..i] == keys[..i];
      var dest := Destination(root, keys[i]);
      attempted := attempted + [dest];
      if fetch(dest) {
        successful := successful + [keys[i]];
      }
      i := i + 1;
    }
    assert keys[..i] == keys;
  }

  /** `download_weight_datasets`: None, with the token deleted, when any
      transfer failed; otherwise the selected keys (each mapped to True), in
      selection order, with the token saved. */
  method DownloadWeightDatasets(keys: seq<string>, accessToken: string, root: string,
                                fetch: string -> bool, store: TokenStore)
    returns (result: Option<seq<string>>, attempted: seq<string>)
    requires AllInCatalog(keys)
    modifies store
    ensures attempted == Destinations(root, keys)
    ensures result.None? <==> exists i :: 0 <= i < |keys| && !fetch(Destination(root, keys[i]))
    ensures result.None? ==> store.token == None
    ensures result.Some? ==> result.value == keys && store.token == Some(accessToken)
  {
    var successful;
    successful, attempted := AttemptAll(root, keys, fetch);
    SucceededCount(root, keys, fetch);
    if |successful| < |keys| {
      store.Delete();
      return None, attempted;
    }
    store.Save(accessToken);
    result := Some(successful);
  }

  /** For a root given without a trailing separator, the weight file of a
      key is `<root>/models/ldm/stable-diffusion-v1/<catalog file>`
      (`WeightsDir` ends with the separator). */
  lemma DestinationShape(root: string, key: string)
    requires key in Datasets
    requires root != [] && root[|root| - 1] != Sep
    ensures Destination(root, key) == root + [Sep] + ModelDir + [Sep] + WeightsDir + Datasets[key].file
  {
    WeightsDirBelow(root);
    CatalogFilesRelative();
  }

  lemma WeightsDirBelow(root: string)
    requires root != [] && root[|root| - 1] != Sep
    ensures PathJoin(PathJoin(root, ModelDir), WeightsDir) == root + [Sep] + ModelDir + [Sep] + WeightsDir
  {
    var m := PathJoin(root, ModelDir);
    assert m == root + [Sep] + ModelDir;
    assert m[|m| - 1] == ModelDir[|ModelDir| - 1];
  }
}
