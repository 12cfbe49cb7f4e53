/** The static catalog of diffusion weight files and the paths derived from it
    (scripts/load_models.py, the `Datasets` table and its neighbours). */
module Catalog {
  import opened Common

  /** One catalog entry. `config` names a model config template under
      `configs/stable-diffusion`, or is the sentinel "VAE" for the shared
      autoencoder, which is not a model of its own. */
  datatype Dataset = Dataset(
    description: string,
    repoId: string,
    config: string,
    file: string,
    recommended: bool,
    width: int,
    height: int)

  /** `Model_dir` and `Weights_dir`: where weight files live below the root. */
  const ModelDir: string := "models"
  const WeightsDir: string := "ldm/stable-diffusion-v1/"

  /** The sentinel value of `config` for the autoencoder. */
  const VaeConfig: string := "VAE"

  /** The catalog keys in declaration order (the order of the Python dict). */
  const Order: seq<string> := [
    "stable-diffusion-1.5",
    "inpainting-1.5",
    "stable-diffusion-1.4",
    "waifu-diffusion-1.3",
    "ft-mse-improved-autoencoder-840000"
  ]

  /** The catalog itself, keyed by the entries of `Order`. */
  const Datasets: map<string, Dataset> := map[
    "stable-diffusion-1.5" := Dataset(
      "The newest Stable Diffusion version 1.5 weight file (4.27 GB)",
      "runwayml/stable-diffusion-v1-5", "v1-inference.yaml",
      "v1-5-pruned-emaonly.ckpt", true, 512, 512),
    "inpainting-1.5" := Dataset(
      "RunwayML SD 1.5 model optimized for inpainting (4.27 GB)",
      "runwayml/stable-diffusion-inpainting", "v1-inpainting-inference.yaml",
      "sd-v1-5-inpainting.ckpt", true, 512, 512),
    "stable-diffusion-1.4" := Dataset(
      "The original Stable Diffusion version 1.4 weight file (4.27 GB)",
      "CompVis/stable-diffusion-v-1-4-original", "v1-inference.yaml",
      "sd-v1-4.ckpt", false, 512, 512),
    "waifu-diffusion-1.3" := Dataset(
      "Stable Diffusion 1.4 fine tuned on anime-styled images (4.27)",
      "hakurei/waifu-diffusion-v1-3", "v1-inference.yaml",
      "model-epoch09-float32.ckpt", false, 512, 512),
    "ft-mse-improved-autoencoder-840000" := Dataset(
      "StabilityAI improved autoencoder fine-tuned for human faces (recommended; 335 MB)",
      "stabilityai/sd-vae-ft-mse-original", VaeConfig,
      "vae-ft-mse-840000-ema-pruned.ckpt", true, 512, 512)
  ]

  /** No key is listed twice. */
  predicate Distinct(keys: seq<string>) {
    forall i, j :: 0 <= i < j < |keys| ==> keys[i] != keys[j]
  }

  /** Every key names a catalog entry. */
  predicate AllInCatalog(keys: seq<string>) {
    forall i :: 0 <= i < |keys| ==> keys[i] in Datasets
  }

  /** Whether a catalog key is the autoencoder rather than a model. */
  predicate IsVae(key: string)
    requires key in Datasets
  {
    Datasets[key].config == VaeConfig
  }

  /** The recommended keys of `keys`, in the order given. */
  function Recommended(keys: seq<string>): seq<string>
    requires AllInCatalog(keys)
  {
    if keys == [] then []
    else if Datasets[keys[|keys| - 1]].recommended
    then Recommended(keys[..|keys| - 1]) + [keys[|keys| - 1]]
    else Recommended(keys[..|keys| - 1])
  }

  /** `Order` enumerates exactly the catalog, each key once. */
  lemma OrderIsCatalog()
    ensures Distinct(Order) && AllInCatalog(Order)
    ensures forall k :: k in Datasets <==> k in Order
  {
  }

  /** Exactly one entry is the autoencoder: the last one. */
  lemma OnlyVaeIsAutoencoder()
    ensures forall k :: k in Datasets ==> (IsVae(k) <==> k == Order[4])
  {
  }

  /** The recommended subset keeps catalog order and contains exactly the
      entries flagged as recommended. */
  lemma {:induction false} RecommendedMembers(keys: seq<string>, k: string)
    requires AllInCatalog(keys)
    ensures AllInCatalog(Recommended(keys))
    ensures k in Recommended(keys) <==> k in keys && Datasets[k].recommended
  {
    if keys != [] {
      RecommendedMembers(keys[..|keys| - 1], k);
      assert keys == keys[..|keys| - 1] + [keys[|keys| - 1]];
    }
  }

  /** `recommended_datasets`: builds the dict of recommended keys (each mapped
      to True; only the keys and their order are kept here) by scanning the
      catalog in declaration order. */
  method RecommendedDatasets() returns (keys: seq<string>)
    ensures keys == Recommended(Order)
    ensures keys == ["stable-diffusion-1.5", "inpainting-1.5", "ft-mse-improved-autoencoder-840000"]
  {
    keys := [];
    var i := 0;
    while i < |Order|
      invariant 0 <= i <= |Order|
      invariant keys == Recommended(Order[..i])
    {
      assert Order[..i + 1][..i] == Order[..i];
      if Datasets[Order[i]].recommended {
        keys := keys + [Order[i]];
      }
      i := i + 1;
    }
    assert Order[..i] == Order;
    RecommendedOfCatalog();
  }

  /** The recommended entries of the catalog, worked out entry by entry. */
  lemma RecommendedOfCatalog()
    ensures Recommended(Order) == ["stable-diffusion-1.5", "inpainting-1.5", "ft-mse-improved-autoencoder-840000"]
  {
    assert Order[..0] == [];
    assert Order[..1][..0] == Order[..0];
    assert Order[..2][..1] == Order[..1];
    assert Order[..3][..2] == Order[..2];
    assert Order[..4][..3] == Order[..3];
    assert Order[..5][..4] == Order[..4];
    assert Recommended(Order[..1]) == ["stable-diffusion-1.5"];
    assert Recommended(Order[..2]) == ["stable-diffusion-1.5", "inpainting-1.5"];
    assert Recommended(Order[..4]) == ["stable-diffusion-1.5", "inpainting-1.5"];
    assert Order[..5] == Order;
  }

  /** `os.path.join(Model_dir, Weights_dir, file)`: the weights path written
      into the configuration, relative to the root. */
  function WeightsPath(file: string): string {
    PathJoin(PathJoin(ModelDir, WeightsDir), file)
  }

  /** For a relative file name the weights path is the fixed directory
      followed by the name. */
  lemma WeightsPathShape(file: string)
    requires file == [] || file[0] != Sep
    ensures WeightsPath(file) == "models/ldm/stable-diffusion-v1/" + file
  {
    assert WeightsDir[0] != Sep && ModelDir != [] && ModelDir[|ModelDir| - 1] != Sep;
    assert PathJoin(ModelDir, WeightsDir) == ModelDir + [Sep] + WeightsDir == "models/ldm/stable-diffusion-v1/";
    assert PathJoin(ModelDir, WeightsDir)[|PathJoin(ModelDir, WeightsDir)| - 1] == Sep;
  }

  /** Every catalog file name is a plain, non-empty relative name. */
  lemma CatalogFilesRelative()
    ensures forall k :: k in Datasets ==> Datasets[k].file != [] && Datasets[k].file[0] != Sep
  {
  }

  /** `os.path.normpath(os.path.join(SD_Configs, config))` for the catalog's
      plain template names: the leading `./` of `./configs/stable-diffusion`
      is dropped by the normalisation. */
  function ConfigPath(config: string): string {
    "configs/stable-diffusion/" + config
  }
}
