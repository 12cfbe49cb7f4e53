# InvokeAI model installer: a Dafny model

This project models the part of InvokeAI's `scripts/load_models.py` that
decides what the installer downloads, how it resumes a download, and how it
writes the models configuration. It covers:

- `Catalog` (`catalog.dfy`). The `Datasets` catalog of weight files.
  - The recommended subset (`recommended_datasets`).
  - The paths derived from the catalog: `Model_dir`, `Weights_dir`, and the
    config template directory.
- `Transfer` (`transfer.dfy`). `download_with_resume`: one resumable HTTP
  transfer.
  - It builds the `Authorization` and `Range` headers and picks the open mode.
  - It handles the 416 "range not satisfiable" answer.
  - It rejects any response other than a 416 that declares fewer than 2000
    bytes.
  - It appends the body chunk by chunk, and a failure partway through keeps
    the chunks written so far.
  - A server that honours byte ranges is modelled as defined in RFC 7233,
    sections 2.1 and 4. It is used to prove what happens over several calls.
- `Batch` (`batch.dfy`). `download_weight_datasets`.
  - Every selected key is tried in order.
  - The cached access token is saved when every transfer succeeds and
    deleted otherwise.
- `ConfigMerge` (`config_merge.dfy`). `new_config_file_contents`: how the
  successful downloads are merged into the loaded YAML document.
  - The last autoencoder downloaded supplies `vae`.
  - The autoencoder never gets a stanza of its own.
  - The catalog fields overwrite hand edits.
  - Other fields survive.
  - `default` goes on the first processed model.
- `ConfigFile` (`config_file.dfy`). `update_config_file`: how the new text
  reaches the disk.
  - The old file is backed up to `.orig`.
  - The text is written to `new_config.tmp`.
  - The temporary file is renamed over the target.
  - Any of these steps may fail.
- `Prompts` (`prompts.dfy`). How the answers to the yes/no question and to
  the download menu are parsed.
- `Root` (`root.dfy`). `get_root`: the root directory comes from the
  argument, then `INVOKEAI_ROOT`, then the last `--root` line of the
  initialization file.
  - The search with `--root\s*=?\s*"?([^"]+)"?` is modelled the way a
    backtracking regular-expression engine runs it.
  - Proved: the group it finds is a genuine match, and it finds one exactly
    when the pattern matches somewhere in the line.
  - Also proved: the file that `initialize_rootdir` writes reads back as the
    root it was written for, when that root holds no quote and no line break.

How external effects are represented:

- The network is a `Response` value: status, declared length, delivered
  chunks, and whether an exception follows them.
- Each file is an optional byte sequence.
- The disk under the configuration file is a `map` from paths to text.
- The user's typed lines, the environment variable and the initialization
  file's lines are parameters.
- YAML parsing and dumping are functions passed in.
- Each imperative operation of the source is a `method` with its loop.
  - It is proved equal to a specification function: `Resume`,
    `Succeeded`/`Destinations`, `NewConfig`, `AfterUpdate`, `ResolvedRoot`,
    `Recommended`.
  - The properties are proved as lemmas about those functions.

Behaviours of the code that the model keeps, though a reader might expect
otherwise:

- An existing file of size 0 still gets a `Range: bytes=0-` header.
- An existing file is never compared with the remote size before the
  request.
- A status other than 200 or 416 only changes the message printed. The
  transfer goes ahead if the declared length is at least 2000.
- A partial file missing fewer than 2000 bytes can never be completed
  (`Transfer.NearlyCompleteFileIsStuck`).
- A failed batch returns None instead of a partial result. The `None` then
  makes `update_config_file` raise (`Outcome.Crashed`) before anything is
  written.
- `default: True` is put on the first processed model without removing a
  `default` that an untouched entry already has, so two defaults can result
  (`ConfigMerge.TwoDefaultsPossible`).
- When opening, writing or renaming the temporary file fails, the target
  path is left empty. The old configuration survives only as the `.orig`
  backup.
- An initialization file that exists but has no matching line makes
  `get_root` raise (`RootResult.Crash`).

## Model

| member | source | states |
|---|---|---|
| Catalog.OrderIsCatalog | scripts/load_models.py:39-85 | the declaration order lists every catalog key exactly once and nothing else |
| Catalog.OnlyVaeIsAutoencoder | scripts/load_models.py:76-84 | the improved autoencoder is the one entry whose config is the `VAE` sentinel |
| Catalog.CatalogFilesRelative | scripts/load_models.py:39-85 | every catalog file name is non-empty and relative |
| Catalog.RecommendedMembers | scripts/load_models.py:198-203 | a key is in the recommended subset exactly when it was given and its entry is flagged recommended |
| Catalog.RecommendedOfCatalog | scripts/load_models.py:39-85 | the recommended entries of the catalog are SD 1.5, inpainting 1.5 and the autoencoder, in that order |
| Catalog.RecommendedDatasets | scripts/load_models.py:198-203 | the scan in catalog order returns exactly the recommended keys, in catalog order |
| Catalog.WeightsPathShape | scripts/load_models.py:398 | joining `models`, `ldm/stable-diffusion-v1/` and a relative file name gives `models/ldm/stable-diffusion-v1/<file>` |
| Transfer.DecimalRoundTrip | scripts/load_models.py:316 | the decimal text of a size is non-empty and parses back to the same number |
| Transfer.RangeHeaderRoundTrip | scripts/load_models.py:316 | a server reading `bytes=<n>-` recovers exactly the offset n of the existing file |
| Transfer.ChunksConcat | scripts/load_models.py:345-347 | writing the 1024-byte chunks of a body one after the other reproduces the body |
| Transfer.DownloadWithResume | scripts/load_models.py:304-351 | `Authorization` exactly when the token is truthy and `Range` exactly when the file exists, with append mode. A 416 succeeds without touching the file. A declared length below 2000, or a failed open, fails and leaves the file unchanged. Otherwise the file becomes its prior bytes plus the whole delivered body, and the result is false exactly when the body raised |
| Transfer.ResumeCompletesFile | scripts/load_models.py:310-351 | against a server honouring ranges, an absent, empty or partial file whose missing part is not below 2000 bytes ends up as the complete artifact in one call |
| Transfer.LongEnoughFileCountsAsComplete | scripts/load_models.py:322-324 | a file at least as long as the artifact gets a 416, counts as done and is left as it is, whatever its bytes |
| Transfer.NearlyCompleteFileIsStuck | scripts/load_models.py:333-335 | a file missing between 1 and 1999 bytes is never completed: every call returns false and leaves it as it is |
| Transfer.InterruptedThenResumed | scripts/load_models.py:337-350 | a transfer that raises after some chunks returns false but keeps them, and the next call completes the file |
| Batch.TokenStore.Save | scripts/load_models.py:298 | the cached token becomes the access token |
| Batch.TokenStore.Delete | scripts/load_models.py:293 | the cached token is removed |
| Batch.AttemptAll | scripts/load_models.py:278-289 | every key is attempted in order, at `<root>/models/ldm/stable-diffusion-v1/<file>`, and the successes are recorded in order |
| Batch.SucceededCount | scripts/load_models.py:288-290 | fewer successes than keys exactly when some transfer failed; with no failure the successes are the selected keys |
| Batch.DownloadWeightDatasets | scripts/load_models.py:275-301 | the result is None (and the token deleted) exactly when some transfer failed; otherwise it is the selected keys, in order, and the token is saved |
| Batch.DestinationShape | scripts/load_models.py:281-285 | for a root without a trailing separator the destination is `<root>/models/ldm/stable-diffusion-v1/<catalog file>` |
| ConfigMerge.FindUpsert | scripts/load_models.py:409 | after `conf[model] = stanza`, that key holds the stanza and every other key holds what it held |
| ConfigMerge.FindPresent | scripts/load_models.py:395 | a lookup succeeds exactly when the key is among the document's keys |
| ConfigMerge.DocKeysUpsert | scripts/load_models.py:409 | an existing key keeps its place and a new key is appended last |
| ConfigMerge.NewConfigFileContents | scripts/load_models.py:378-410 | the two loops compute the merge of the successful keys into the loaded document, or into an empty one when there is no file |
| ConfigMerge.LastVaeIsLast | scripts/load_models.py:387-390 | the `vae` chosen is the file of the last autoencoder key downloaded, and None exactly when none was |
| ConfigMerge.FirstPrimaryIsFirst | scripts/load_models.py:405-408 | the default goes to the model key that only autoencoder keys precede, and to none when all keys are autoencoders |
| ConfigMerge.MergeFind | scripts/load_models.py:392-409 | after the loop every processed model holds its rewritten stanza, with `default` exactly on the first model; every other key is unchanged |
| ConfigMerge.UntouchedEntriesPreserved | scripts/load_models.py:392-394 | keys not downloaded, and the autoencoder's key, keep their entries exactly |
| ConfigMerge.RewriteWritten | scripts/load_models.py:395-408 | a processed stanza's fields. The five catalog fields are overwritten, with the weights path `models/ldm/stable-diffusion-v1/<file>` and the config path `configs/stable-diffusion/<config>`. Other fields are kept. `vae` is the autoencoder path when a non-empty autoencoder file name was found (as `if vae:` tests) and kept otherwise. `default: True` is present exactly on the first model |
| ConfigMerge.ProcessedStanza | scripts/load_models.py:392-409 | every downloaded model has a stanza in the result, with exactly the fields described for `RewriteWritten` |
| ConfigMerge.DefaultOnlyOnFirst | scripts/load_models.py:402-408 | at most one of the processed models carries `default` |
| ConfigMerge.TwoDefaultsPossible | scripts/load_models.py:402-408 | a default on an entry the run did not touch survives beside the new one |
| ConfigMerge.MergeKeys | scripts/load_models.py:392-409 | the merged document lists the old keys in their old order, then the new model keys in download order |
| ConfigMerge.NewConfigKeys | scripts/load_models.py:378-410 | the result's keys are the old keys followed by the missing downloaded models, and they stay distinct |
| ConfigMerge.RewriteIdempotent | scripts/load_models.py:395-408 | rewriting a stanza a second time with the same arguments changes nothing |
| ConfigMerge.NewConfigIdempotent | scripts/load_models.py:378-410 | merging the same downloads into the merge's own output yields the same document |
| ConfigMerge.FreshRecommendedConfig | scripts/load_models.py:378-410 | a first installation of the recommended set gives stanzas for SD 1.5 then inpainting 1.5, both pointing at the autoencoder file, with only the first the default |
| ConfigFile.BackupIsSeparate | scripts/load_models.py:363-364 | the `.orig` backup path differs from the target and from the temporary file |
| ConfigFile.Disk.Rename | scripts/load_models.py:363 | the source path is removed and the destination takes its text, replacing any file there |
| ConfigFile.Disk.WriteText | scripts/load_models.py:365-367 | the path holds exactly the text written, and nothing else on the disk changes |
| ConfigFile.Disk.UpdateConfigFile | scripts/load_models.py:354-374 | the backup, write and rename sequence leaves exactly the disk and outcome that `AfterUpdate` gives for each failing step |
| ConfigFile.SuccessfulUpdate | scripts/load_models.py:358-374 | on success the target holds the preamble and the merged document, the old target is the backup, the temporary file is gone, and nothing else changes |
| ConfigFile.FailedWriteLeavesNoTarget | scripts/load_models.py:364-372 | when opening, writing or promoting the temporary file fails, the failure is reported and the target path is empty, with the old text kept only in the backup |
| ConfigFile.EarlyFailureChangesNothing | scripts/load_models.py:358-372 | a failed backup rename is reported, and a None batch result crashes, both with the disk unchanged |
| Prompts.YesOrNo | scripts/load_models.py:122-128 | an answer starting with y/Y is yes, one starting with n/N is no, and anything else, including the empty line, is the default |
| Prompts.ParseChoice | scripts/load_models.py:146-152 | a line picks a selection exactly when it starts with that selection's letter in either case; the empty line picks the recommended set |
| Prompts.UserWantsToDownloadWeights | scripts/load_models.py:144-153 | the selection is that of the first line that parses, every earlier line parses to nothing, and with no such line all answers are consumed |
| Root.Strip | scripts/load_models.py:597 | the result is empty exactly when the text is all white space; otherwise it is the text between leading and trailing white space, starting and ending on non-space characters |
| Root.MatchAtExact | scripts/load_models.py:593 | the matcher succeeds at a position exactly when the pattern can match there |
| Root.SearchIsLeftmost | scripts/load_models.py:593 | the search returns the group from the leftmost position where the matcher succeeds, and None when it succeeds nowhere |
| Root.RootInExact | scripts/load_models.py:593 | any group found is a genuine match in the line, and there is none exactly when the pattern matches nowhere |
| Root.NoFlagNoRoot | scripts/load_models.py:593 | a line without `--root` has no group |
| Root.QuotedRootLine | scripts/load_models.py:593 | `--root="<r>"` followed by anything has r as its group, for any non-empty r without a quote |
| Root.LastRootIsLast | scripts/load_models.py:590-595 | the root read is the group of a line that no later matching line follows, and None exactly when no line matches |
| Root.LastRootIgnoresTail | scripts/load_models.py:590-595 | lines without a group after the last matching line change nothing |
| Root.GetRoot | scripts/load_models.py:578-597 | the lookup, with its line-by-line scan, returns exactly `ResolvedRoot` |
| Root.RootPrecedence | scripts/load_models.py:578-597 | the argument wins over the variable, the variable over the file, and "." stands in when there is no file. A path is never empty. A crash happens exactly for an existing file in which no line matches |
| Root.ExamplesHaveNoRoot | scripts/load_models.py:621-627 | none of the example lines after the root line of the generated file has a group |
| Root.InitFileRoundTrip | scripts/load_models.py:616-628 | the initialization file written for a root without a quote or line break reads back as that root, stripped, or "." when it strips to nothing |

## Left out

- Printing, the terminal prompts themselves and the interactive menu flow of
  `main` are not modelled. Typed lines are parameters.
- A `requests.get` that raises on its own, before the `try`, would leave
  `download_with_resume`. It is not modelled. Neither is a non-numeric
  `content-length`, which raises in `int()`.
- The progress bar (`tqdm`), `hf_hub_url`, and `os.makedirs` of the weights
  directory are left out. They change no state the model observes.
- `migrate_models_ckpt`, the support files (`download_bert`, CLIP, the face
  restoration models) and `initialize_rootdir`'s directory creation and copy
  are left out. They are outside the download and configuration core.
- Argument parsing and `get_root`'s `os.path.expanduser` are left out. The
  initialization file is given directly as its lines, already split.
- ConfigFile.Disk.UpdateConfigFile: takes `config_file` already resolved.
  `opt.config_file or Default_config_file` and the `normpath(join(root, ...))`
  that precede it are not modelled.
- Catalog.ConfigPath: writes the normalised config path for the catalog's
  plain template names directly, instead of modelling `os.path.normpath` in
  general.
- ConfigMerge.NewConfigFileContents: YAML parsing and the final
  `OmegaConf.to_yaml` are parameters. The order of fields inside a stanza is
  not modelled, since stanzas are maps.
- Batch.DownloadWeightDatasets: the `input()` pause after a failed batch is
  not modelled.
- ConfigFile.Disk.Rename: follows POSIX `os.rename`, which replaces an
  existing destination. Windows, where it raises, is not modelled.
- Transfer.DownloadWithResume: `fails` covers exceptions derived from
  `Exception` only, which the `except` catches. A keyboard interrupt during
  the transfer keeps the bytes written so far but leaves
  `download_with_resume`, `download_weight_datasets` (saving or deleting no
  token) and the download step altogether. Interrupts abort the run and are
  not modelled.
- ConfigFile.Disk.UpdateConfigFile: `load` is total, so an existing
  configuration file that does not parse is not modelled. In the script,
  `OmegaConf.load` raises outside the `try`, and the run stops with the disk
  unchanged, as in the `Crashed` case.
- Root.InitFileRoundTrip: holds only for roots without a line break. The
  file's lines are given already split, and `readlines()` would split a root
  line holding a line break, so only the part before the break is read back.
- Integer widths are not modelled. Python integers are unbounded, as Dafny's
  are.
