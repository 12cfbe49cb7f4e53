/** Writing the merged configuration to disk (`update_config_file` in
    scripts/load_models.py): the existing file is renamed to `.orig`, the new
    text goes to a temporary file, and the temporary file is renamed over the
    target. The disk is a map from paths to text; YAML parsing and dumping
    are parameters. Any one step may raise, as `fault` says. */
module ConfigFile {
  import opened Common
  import opened Catalog
  import opened ConfigMerge

  /** `Config_preamble`, written before the YAML. */
  const Preamble: string :=
    "# This file describes the alternative machine learning models\n" +
    "# available to InvokeAI script.\n" +
    "#\n" +
    "# To add a new model, follow the examples below. Each\n" +
    "# model requires a model config file, a weights file,\n" +
    "# and the width and height of the images it\n" +
    "# was trained on.\n"

  const BackupSuffix: string := ".orig"
  const TempName: string := "new_config.tmp"

  /** The step of the sequence that raises, if any. `WriteFails(n)` leaves the
      first n characters of the text in the temporary file. */
  datatype Fault = NoFault | BackupFails | OpenTempFails | WriteFails(written: nat) | PromoteFails

  /** `Created`: the success message; `Reported`: the exception was caught and
      printed; `Crashed`: an exception left `update_config_file` (a failed
      batch passes None, and iterating it raises). */
  datatype Outcome = Created | Reported | Crashed

  datatype Update = Update(files: map<string, string>, outcome: Outcome)

  // ---------------------------------------------------------------------
  // Paths

  /** Everything up to and including the last separator (`p[:p.rfind('/')+1]`). */
  function Head(p: string): (h: string)
    ensures |h| <= |p| && h == p[..|h|]
    ensures h == [] || h[|h| - 1] == Sep
    decreases |p|
  {
    if p == [] then []
    else if p[|p| - 1] == Sep then p
    else Head(p[..|p| - 1])
  }

  function TrimTrailingSeps(h: string): (r: string)
    decreases |h|
  {
    if h != [] && h[|h| - 1] == Sep then TrimTrailingSeps(h[..|h| - 1]) else h
  }

  predicate AllSeps(h: string) {
    forall i :: 0 <= i < |h| ==> h[i] == Sep
  }

  /** `os.path.dirname` on POSIX. */
  function Dirname(p: string): string {
    var h := Head(p);
    if h != [] && !AllSeps(h) then TrimTrailingSeps(h) else h
  }

  function BackupPath(configFile: string): string {
    configFile + BackupSuffix
  }

  /** `os.path.join(os.path.dirname(config_file), 'new_config.tmp')`. */
  function TempPath(configFile: string): string {
    PathJoin(Dirname(configFile), TempName)
  }

  /** The backup name never collides with the target or the temporary file. */
  lemma BackupIsSeparate(configFile: string)
    ensures BackupPath(configFile) != configFile
    ensures BackupPath(configFile) != TempPath(configFile)
  {
    var t := TempPath(configFile);
    assert t[|t| - |TempName|..] == TempName;
    var b := BackupPath(configFile);
    assert b[|b| - 1] == 'g';
    assert |b| > |configFile|;
  }

  // ---------------------------------------------------------------------
  // The sequence, as a specification

  /** `os.rename(src, dst)` on POSIX: `dst` is replaced when it exists. */
  function Renamed(files: map<string, string>, src: string, dst: string): map<string, string>
    requires src in files
  {
    (files - {src})[dst := files[src]]
  }

  /** The document `new_config_file_contents` loads: the parsed target when
      it exists, nothing otherwise. */
  function Loaded(files: map<string, string>, configFile: string, load: string -> Doc): Option<Doc> {
    if configFile in files then Some(load(files[configFile])) else None
  }

  /** What the whole of `update_config_file` leaves behind. */
  function AfterUpdate(files: map<string, string>, successful: Option<seq<string>>, configFile: string,
                       load: string -> Doc, dump: Doc -> string, fault: Fault): Update
    requires successful.Some? ==> AllInCatalog(successful.value)
  {
    if successful.None? then Update(files, Crashed)
    else
      var loaded := Loaded(files, configFile, load);
      var text := Preamble + dump(NewConfig(if loaded.Some? then loaded.value else [], successful.value));
      if fault == BackupFails && configFile in files then Update(files, Reported)
      else
        var backedUp := if configFile in files then Renamed(files, configFile, BackupPath(configFile)) else files;
        var tmp := TempPath(configFile);
        if fault == OpenTempFails then Update(backedUp, Reported)
        else if fault.WriteFails? then
          Update(backedUp[tmp := text[..if fault.written < |text| then fault.written else |text|]], Reported)
        else
          var written := backedUp[tmp := text];
          if fault == PromoteFails then Update(written, Reported)
          else Update(Renamed(written, tmp, configFile), Created)
  }

  // ---------------------------------------------------------------------
  // The sequence, as the source runs it

  class Disk {
    var files: map<string, string>

    constructor (initial: map<string, string>)
      ensures files == initial
    {
      files := initial;
    }

    method Rename(src: string, dst: string)
      requires src in files
      modifies this
      ensures files == Renamed(old(files), src, dst)
    {
      files := (files - {src})[dst := files[src]];
    }

    /** `open(path, 'w')` followed by writes totalling `text`. */
    method WriteText(path: string, text: string)
      modifies this
      ensures files == old(files)[path := text]
    {
      files := files[path := text];
    }

    /** `update_config_file` for the resolved `config_file` path. */
    method UpdateConfigFile(successful: Option<seq<string>>, configFile: string,
                            load: string -> Doc, dump: Doc -> string, fault: Fault)
      returns (outcome: Outcome)
      requires successful.Some? ==> AllInCatalog(successful.value)
      modifies this
      ensures Update(files, outcome) == AfterUpdate(old(files), successful, configFile, load, dump, fault)
    {
      if successful.None? {
        // `for model in None` raises before anything is written
        return Crashed;
      }
      var loaded := if configFile in files then Some(load(files[configFile])) else None;
      var doc := NewConfigFileContents(successful.value, loaded);
      var yaml := dump(doc);

      if configFile in files {
        if fault == BackupFails {
          return Reported;
        }
        Rename(configFile, BackupPath(configFile));
      }
      var tmp := TempPath(configFile);
      if fault == OpenTempFails {
        return Reported;
      }
      var text := Preamble + yaml;
      if fault.WriteFails? {
        WriteText(tmp, text[..if fault.written < |text| then fault.written else |text|]);
        return Reported;
      }
      WriteText(tmp, text);
      if fault == PromoteFails {
        return Reported;
      }
      Rename(tmp, configFile);
      outcome := Created;
    }
  }

  // ---------------------------------------------------------------------
  // What the sequence guarantees

  /** On success the target holds the preamble and the merged document, the
      previous target (if any) is the backup, and the temporary file is gone. */
  lemma SuccessfulUpdate(files: map<string, string>, keys: seq<string>, configFile: string,
                         load: string -> Doc, dump: Doc -> string)
    requires AllInCatalog(keys)
    requires TempPath(configFile) != configFile
    ensures var u := AfterUpdate(files, Some(keys), configFile, load, dump, NoFault);
            var loaded := Loaded(files, configFile, load);
            && u.outcome == Created
            && configFile in u.files
            && u.files[configFile] == Preamble + dump(NewConfig(if loaded.Some? then loaded.value else [], keys))
            && TempPath(configFile) !in u.files
            && (configFile in files ==>
                  BackupPath(configFile) in u.files && u.files[BackupPath(configFile)] == files[configFile])
            && (forall p :: p != configFile && p != BackupPath(configFile) && p != TempPath(configFile) ==>
                  (p in u.files <==> p in files) && (p in files ==> u.files[p] == files[p]))
  {
    BackupIsSeparate(configFile);
  }

  /** When opening, writing or promoting the temporary file fails, nothing is
      left at the target path: the previous configuration only survives as
      the backup. */
  lemma FailedWriteLeavesNoTarget(files: map<string, string>, keys: seq<string>, configFile: string,
                                  load: string -> Doc, dump: Doc -> string, fault: Fault)
    requires AllInCatalog(keys)
    requires TempPath(configFile) != configFile
    requires fault == OpenTempFails || fault.WriteFails? || fault == PromoteFails
    ensures var u := AfterUpdate(files, Some(keys), configFile, load, dump, fault);
            && u.outcome == Reported
            && configFile !in u.files
            && (configFile in files ==>
                  BackupPath(configFile) in u.files && u.files[BackupPath(configFile)] == files[configFile])
  {
    BackupIsSeparate(configFile);
  }

  /** A failed backup rename, and the None a failed batch passes, leave the
      disk as it was. */
  lemma EarlyFailureChangesNothing(files: map<string, string>, successful: Option<seq<string>>, configFile: string,
                                   load: string -> Doc, dump: Doc -> string)
    requires successful.Some? ==> AllInCatalog(successful.value)
    requires successful.None? || configFile in files
    ensures var u := AfterUpdate(files, successful, configFile, load, dump, BackupFails);
            u.files == files && u.outcome == (if successful.None? then Crashed else Reported)
  {
  }
}
