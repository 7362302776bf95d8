/**
 * The two commands of the tool (Source/Program.cs): `CollectConfig` saves
 * the VS Code user settings, key bindings, snippets and extension list into
 * a new snapshot folder `Configs/<timestamp>` next to the tool, and
 * `SyncConfig` copies the snapshot whose name sorts last back into the user directory and
 * installs its extensions. The platform, folders, base directory, clock,
 * the CLI probe and the process results are parameters.
 */
module ConfigSync {
  import opened Wrappers
  import opened Paths
  import opened Text
  import opened Ordinal
  import opened FileSystems
  import opened TreeCopy
  import opened Snapshots
  import opened Platforms
  import opened Extensions

  const SettingsFile: string := "settings.json"
  const KeybindingsFile: string := "keybindings.json"
  const SnippetsDir: string := "snippets"
  const ExtensionsFile: string := "extensions.txt"
  const ConfigsDir: string := "Configs"

  /** `Path.Combine(GetProjectRoot(), "Configs")`. */
  function ConfigsRoot(baseDir: Path): (r: Path)
    ensures IsStrictPrefix(ProjectRoot(baseDir), r) && r[|r| - 1] == ConfigsDir
  {
    PrefixOfConcat(ProjectRoot(baseDir), [ConfigsDir]);
    ProjectRoot(baseDir) + [ConfigsDir]
  }

  // ---------------------------------------------------------------------
  // What changes where
  // ---------------------------------------------------------------------

  lemma ConfinedTransitive(a: Tree, b: Tree, c: Tree, tgt: Path)
    requires ConfinedTo(a, b, tgt) && ConfinedTo(b, c, tgt)
    ensures ConfinedTo(a, c, tgt)
  {
  }

  /** A change inside `tgt + [d]` is a change inside `tgt`. */
  lemma ConfinedWiden(a: Tree, b: Tree, tgt: Path, d: string)
    requires ConfinedTo(a, b, tgt + [d])
    ensures ConfinedTo(a, b, tgt)
  {
    forall p | !IsPrefix(tgt, p)
      ensures !IsPrefix(tgt + [d], p)
    {
      InsideChild(tgt, d, p);
    }
    forall p | p in b.dirs && p !in a.dirs
      ensures IsPrefix(p, tgt) || IsPrefix(tgt, p)
    {
      PrefixOfChild(p, tgt, d);
      if IsPrefix(tgt + [d], p) {
        InsideChild(tgt, d, p);
      } else if p == tgt + [d] {
        PrefixOfConcat(tgt, [d]);
      }
    }
  }

  /** `CopyIfExists(sourceFile, targetDir)` changes nothing outside `targetDir` and the way to it. */
  lemma CopyIfExistsConfined(t: Tree, decodable: Bytes -> bool, sourceFile: Path, targetDir: Path)
    requires sourceFile != []
    ensures ConfinedTo(t, CopyIfExistsEffect(t, decodable, sourceFile, targetDir).1, targetDir)
  {
    PrefixOfConcat(targetDir, [FileName(sourceFile)]);
  }

  /** A path below `a` lies outside `b` when `a` and `b` are apart. */
  lemma InsideApart(a: Path, b: Path, q: Path)
    requires !Nested(a, b) && IsPrefix(a, q)
    ensures !Nested(q, b)
  {
    OutsideTarget(a, b, q);
  }

  /** A change confined to `tgt` leaves a file outside `tgt` as it was, present or absent. */
  lemma ConfinedKeeps(a: Tree, b: Tree, tgt: Path, p: Path)
    requires ConfinedTo(a, b, tgt) && !IsPrefix(tgt, p)
    ensures p in b.files <==> p in a.files
    ensures p in a.files ==> b.files[p] == a.files[p]
  {
  }

  // ---------------------------------------------------------------------
  // Copying the configuration between a user directory and a snapshot
  // ---------------------------------------------------------------------

  /**
   * The three copy steps both commands share, from `from` into `to`:
   * `settings.json`, then `keybindings.json`, each with `CopyIfExists`, then
   * `snippets/` with `CopyDirectory` when that folder exists. `None` when
   * one of them throws, which ends the command.
   */
  ghost function ConfigCopied(t: Tree, decodable: Bytes -> bool, from: Path, to: Path): Option<Tree> {
    var (o1, t1) := CopyIfExistsEffect(t, decodable, from + [SettingsFile], to);
    if o1 == Threw then None
    else
      var (o2, t2) := CopyIfExistsEffect(t1, decodable, from + [KeybindingsFile], to);
      if o2 == Threw then None
      else if from + [SnippetsDir] !in t2.dirs then Some(t2)
      else
        var m := Mirror(t2, from + [SnippetsDir], to + [SnippetsDir], decodable);
        if ClashFree(m) then Some(m) else None
  }

  method CopyConfig(fs: FileSystem, from: Path, to: Path) returns (ok: bool)
    requires fs.Valid() && !Nested(from, to)
    modifies fs
    ensures fs.Valid()
    ensures ok <==> ConfigCopied(old(fs.State()), fs.decodable, from, to).Some?
    ensures ok ==> fs.State() == ConfigCopied(old(fs.State()), fs.decodable, from, to).value
    ensures ConfinedTo(old(fs.State()), fs.State(), to)
  {
    ghost var t0 := fs.State();
    var outcome := CopyIfExists(fs, from + [SettingsFile], to);
    CopyIfExistsConfined(t0, fs.decodable, from + [SettingsFile], to);
    if outcome == Threw {
      return false;
    }
    ghost var t1 := fs.State();
    outcome := CopyIfExists(fs, from + [KeybindingsFile], to);
    CopyIfExistsConfined(t1, fs.decodable, from + [KeybindingsFile], to);
    ConfinedTransitive(t0, t1, fs.State(), to);
    if outcome == Threw {
      return false;
    }
    if from + [SnippetsDir] !in fs.dirs {
      return true;
    }
    ghost var t2 := fs.State();
    NotNestedChild(from, to, SnippetsDir);
    ok := CopyDirectory(fs, from + [SnippetsDir], to + [SnippetsDir]);
    ConfinedWiden(t2, fs.State(), to, SnippetsDir);
    ConfinedTransitive(t0, t2, fs.State(), to);
  }

  /** A file copy step from `from` into `to` leaves everything the later steps read in place. */
  lemma CopyStepKeepsSource(t: Tree, decodable: Bytes -> bool, from: Path, to: Path, name: string)
    requires !Nested(from, to)
    ensures var (o1, t1) := CopyIfExistsEffect(t, decodable, from + [name], to);
      && t.dirs <= t1.dirs
      && forall p :: IsPrefix(from, p) ==> (p in t1.files <==> p in t.files) && (p in t.files ==> t1.files[p] == t.files[p])
  {
    var t1 := CopyIfExistsEffect(t, decodable, from + [name], to).1;
    CopyIfExistsConfined(t, decodable, from + [name], to);
    forall p | IsPrefix(from, p)
      ensures !IsPrefix(to, p)
    {
      OutsideTarget(from, to, p);
    }
  }

  /** A copy into `to` leaves `to + [name]` alone unless it writes there. */
  lemma OtherNameKept(t: Tree, decodable: Bytes -> bool, sourceFile: Path, to: Path, name: string)
    requires sourceFile != [] && FileName(sourceFile) != name
    ensures var r := CopyIfExistsEffect(t, decodable, sourceFile, to).1;
      && (to + [name] in r.files <==> to + [name] in t.files)
      && (to + [name] in t.files ==> r.files[to + [name]] == t.files[to + [name]])
  {
    assert (to + [name])[|to|] == name && (to + [FileName(sourceFile)])[|to|] == FileName(sourceFile);
  }

  /** The snippet copy writes only below `to + ["snippets"]`, so it keeps the settings and key bindings. */
  lemma MirrorKeepsTopFiles(t: Tree, from: Path, to: Path, decodable: Bytes -> bool, name: string)
    requires to + [name] in t.files && name != SnippetsDir
    ensures var m := Mirror(t, from + [SnippetsDir], to + [SnippetsDir], decodable);
      to + [name] in m.files && m.files[to + [name]] == t.files[to + [name]]
  {
    MirrorKeepsOthers(t, from + [SnippetsDir], to + [SnippetsDir], decodable);
    assert (to + [name])[|to|] == name;
  }

  /** A completed copy leaves the snapshot's `settings.json`, re-encoded, in `to`. */
  lemma ConfigCopiedSettings(t: Tree, decodable: Bytes -> bool, from: Path, to: Path)
    requires !Nested(from, to)
    requires ConfigCopied(t, decodable, from, to).Some? && from + [SettingsFile] in t.files
    ensures var r := ConfigCopied(t, decodable, from, to).value;
      && to + [SettingsFile] in r.files
      && r.files[to + [SettingsFile]] == Normalize(t.files[from + [SettingsFile]])
  {
    var t1 := CopyIfExistsEffect(t, decodable, from + [SettingsFile], to).1;
    var t2 := CopyIfExistsEffect(t1, decodable, from + [KeybindingsFile], to).1;
    assert FileName(from + [SettingsFile]) == SettingsFile;
    assert FileName(from + [KeybindingsFile]) == KeybindingsFile;
    OtherNameKept(t1, decodable, from + [KeybindingsFile], to, SettingsFile);
    if from + [SnippetsDir] in t2.dirs {
      MirrorKeepsTopFiles(t2, from, to, decodable, SettingsFile);
    }
  }

  /** A completed copy leaves the snapshot's `keybindings.json`, re-encoded, in `to`. */
  lemma ConfigCopiedKeybindings(t: Tree, decodable: Bytes -> bool, from: Path, to: Path)
    requires !Nested(from, to)
    requires ConfigCopied(t, decodable, from, to).Some? && from + [KeybindingsFile] in t.files
    ensures var r := ConfigCopied(t, decodable, from, to).value;
      && to + [KeybindingsFile] in r.files
      && r.files[to + [KeybindingsFile]] == Normalize(t.files[from + [KeybindingsFile]])
  {
    var t1 := CopyIfExistsEffect(t, decodable, from + [SettingsFile], to).1;
    var t2 := CopyIfExistsEffect(t1, decodable, from + [KeybindingsFile], to).1;
    CopyStepKeepsSource(t, decodable, from, to, SettingsFile);
    PrefixOfConcat(from, [KeybindingsFile]);
    assert FileName(from + [KeybindingsFile]) == KeybindingsFile;
    if from + [SnippetsDir] in t2.dirs {
      MirrorKeepsTopFiles(t2, from, to, decodable, KeybindingsFile);
    }
  }

  /** Every file below the `snippets` folder of `from`, at every depth, is copied to the same place below `to`. */
  lemma ConfigCopiedSnippets(t: Tree, decodable: Bytes -> bool, from: Path, to: Path, p: Path)
    requires WellFormed(t) && !Nested(from, to)
    requires ConfigCopied(t, decodable, from, to).Some?
    requires p in t.files && IsStrictPrefix(from + [SnippetsDir], p)
    ensures var r := ConfigCopied(t, decodable, from, to).value;
      var q := to + [SnippetsDir] + Rel(from + [SnippetsDir], p);
      && q in r.files
      && r.files[q] == CopiedContent(FileName(p), t.files[p], decodable)
  {
    AncestorsOfFile(t, p, from + [SnippetsDir]);
    ConfigCopiedSnippetsBelow(t, decodable, from, to, p);
  }

  /** `ConfigCopiedSnippets` for a tree that need not be well formed, once its `snippets` folder is known to exist. */
  lemma ConfigCopiedSnippetsBelow(t: Tree, decodable: Bytes -> bool, from: Path, to: Path, p: Path)
    requires !Nested(from, to) && from + [SnippetsDir] in t.dirs
    requires ConfigCopied(t, decodable, from, to).Some?
    requires p in t.files && IsStrictPrefix(from + [SnippetsDir], p)
    ensures var r := ConfigCopied(t, decodable, from, to).value;
      var q := to + [SnippetsDir] + Rel(from + [SnippetsDir], p);
      && q in r.files
      && r.files[q] == CopiedContent(FileName(p), t.files[p], decodable)
  {
    var t1 := CopyIfExistsEffect(t, decodable, from + [SettingsFile], to).1;
    var t2 := CopyIfExistsEffect(t1, decodable, from + [KeybindingsFile], to).1;
    assert from + [SnippetsDir] in t2.dirs && p in t2.files && t2.files[p] == t.files[p] by {
      CopyStepKeepsSource(t, decodable, from, to, SettingsFile);
      CopyStepKeepsSource(t1, decodable, from, to, KeybindingsFile);
      InsideChild(from, SnippetsDir, p);
    }
    assert ConfigCopied(t, decodable, from, to).value == Mirror(t2, from + [SnippetsDir], to + [SnippetsDir], decodable);
    MirrorCopiesEveryFile(t2, from + [SnippetsDir], to + [SnippetsDir], decodable, p);
  }

  /** A completed copy changes nothing outside `to` and deletes nothing. */
  lemma ConfigCopiedConfined(t: Tree, decodable: Bytes -> bool, from: Path, to: Path)
    requires ConfigCopied(t, decodable, from, to).Some?
    ensures ConfinedTo(t, ConfigCopied(t, decodable, from, to).value, to)
    ensures t.files.Keys <= ConfigCopied(t, decodable, from, to).value.files.Keys
  {
    var t1 := CopyIfExistsEffect(t, decodable, from + [SettingsFile], to).1;
    var t2 := CopyIfExistsEffect(t1, decodable, from + [KeybindingsFile], to).1;
    CopyIfExistsConfined(t, decodable, from + [SettingsFile], to);
    CopyIfExistsConfined(t1, decodable, from + [KeybindingsFile], to);
    if from + [SnippetsDir] in t2.dirs {
      var m := Mirror(t2, from + [SnippetsDir], to + [SnippetsDir], decodable);
      MirrorConfined(t2, from + [SnippetsDir], to + [SnippetsDir], decodable);
      MirrorKeepsOthers(t2, from + [SnippetsDir], to + [SnippetsDir], decodable);
      ConfinedWiden(t2, m, to, SnippetsDir);
    }
  }

  // ---------------------------------------------------------------------
  // SyncConfig
  // ---------------------------------------------------------------------

  datatype SyncOutcome =
    | UserDirMissing
    | ConfigsMissing
    | NoSnapshots
      /** A copy step threw while restoring `snapshot`. */
    | Aborted(snapshot: string)
      /** `snapshot` restored; `installs` are the install commands run, in order. */
    | Synced(snapshot: string, installs: seq<string>)

  /** `name` is the snapshot sync selects: a folder of `Configs` not ordinally below any other. */
  ghost predicate IsNewestSnapshot(t: Tree, configsRoot: Path, name: string) {
    && name in SubdirNamesIn(t, configsRoot)
    && forall n :: n in SubdirNamesIn(t, configsRoot) ==> LessEq(n, name)
  }

  /** The install commands for the snapshot folder `snapshot`: none without an `extensions.txt`. */
  function InstallsFor(t: Tree, snapshot: Path, os: Os, onPath: bool, existing: set<string>, readLines: Bytes -> seq<string>): seq<string> {
    var p := snapshot + [ExtensionsFile];
    if p in t.files then InstallCommands(Invocation(ResolveCli(os, onPath, existing)), ExtensionIds(readLines(t.files[p]))) else []
  }

  /**
   * The body of `SyncConfig` once the snapshot `Configs/<name>` is chosen:
   * copy the three items into the user directory, then issue the install
   * commands for `extensions.txt` when the snapshot holds one.
   */
  method RestoreSnapshot(fs: FileSystem, configsRoot: Path, name: string, userDir: Path, os: Os, onPath: bool,
                         existing: set<string>, readLines: Bytes -> seq<string>) returns (ok: bool, installs: seq<string>)
    requires fs.Valid() && !Nested(configsRoot, userDir)
    modifies fs
    ensures fs.Valid()
    ensures var restored := ConfigCopied(old(fs.State()), fs.decodable, configsRoot + [name], userDir);
      && (ok <==> restored.Some?)
      && (ok ==> fs.State() == restored.value)
    ensures ok ==> installs == InstallsFor(old(fs.State()), configsRoot + [name], os, onPath, existing, readLines)
    ensures ConfinedTo(old(fs.State()), fs.State(), userDir)
  {
    ghost var t0 := fs.State();
    var snapshot := configsRoot + [name];
    PrefixOfConcat(configsRoot, [name]);
    InsideApart(configsRoot, userDir, snapshot);
    installs := [];
    ok := CopyConfig(fs, snapshot, userDir);
    if !ok {
      return;
    }
    var extensionsFile := snapshot + [ExtensionsFile];
    PrefixOfConcat(snapshot, [ExtensionsFile]);
    PrefixTransitive(configsRoot, snapshot, extensionsFile);
    OutsideTarget(configsRoot, userDir, extensionsFile);
    ConfinedKeeps(t0, fs.State(), userDir, extensionsFile);
    if extensionsFile in fs.files {
      installs := InstallAll(os, onPath, existing, readLines(fs.files[extensionsFile]));
    }
  }

  /**
   * The part of `SyncConfig` once `Configs` is known to exist: pick the
   * folder of `Configs` that sorts last and restore it, or return when
   * `Configs` is empty.
   */
  method SyncLatest(fs: FileSystem, configsRoot: Path, userDir: Path, os: Os, onPath: bool, existing: set<string>,
                    readLines: Bytes -> seq<string>) returns (outcome: SyncOutcome)
    requires fs.Valid() && !Nested(configsRoot, userDir)
    modifies fs
    ensures fs.Valid()
    ensures outcome.NoSnapshots? || outcome.Aborted? || outcome.Synced?
    ensures outcome == NoSnapshots <==> SubdirNamesIn(old(fs.State()), configsRoot) == {}
    ensures outcome.NoSnapshots? ==> fs.State() == old(fs.State())
    ensures outcome.Aborted? || outcome.Synced? ==> IsNewestSnapshot(old(fs.State()), configsRoot, outcome.snapshot)
    ensures outcome.Aborted? ==> ConfigCopied(old(fs.State()), fs.decodable, configsRoot + [outcome.snapshot], userDir).None?
    ensures outcome.Synced? ==>
      var restored := ConfigCopied(old(fs.State()), fs.decodable, configsRoot + [outcome.snapshot], userDir);
      restored.Some? && fs.State() == restored.value
    ensures outcome.Synced? ==>
      outcome.installs == InstallsFor(old(fs.State()), configsRoot + [outcome.snapshot], os, onPath, existing, readLines)
    ensures ConfinedTo(old(fs.State()), fs.State(), userDir)
  {
    var names := fs.ListSubdirs(configsRoot);
    var latest := Latest(names);
    if latest.None? {
      return NoSnapshots;
    }
    var ok, installs := RestoreSnapshot(fs, configsRoot, latest.value, userDir, os, onPath, existing, readLines);
    if !ok {
      return Aborted(latest.value);
    }
    return Synced(latest.value, installs);
  }

  /**
   * `SyncConfig`. `onPath` and `existing` answer the CLI probe and the
   * `File.Exists` checks of the fallback launchers; `readLines` is
   * `File.ReadAllLines` on the bytes of `extensions.txt`.
   */
  method SyncConfig(fs: FileSystem, os: Os, folders: Folders, baseDir: Path, onPath: bool, existing: set<string>,
                    readLines: Bytes -> seq<string>) returns (outcome: SyncOutcome)
    requires fs.Valid()
    requires !Nested(UserDir(os, folders), ConfigsRoot(baseDir))
    modifies fs
    ensures fs.Valid()
    ensures outcome == UserDirMissing <==> UserDir(os, folders) !in old(fs.dirs)
    ensures outcome == ConfigsMissing <==> UserDir(os, folders) in old(fs.dirs) && ConfigsRoot(baseDir) !in old(fs.dirs)
    ensures outcome == NoSnapshots <==>
      UserDir(os, folders) in old(fs.dirs) && ConfigsRoot(baseDir) in old(fs.dirs) && SubdirNamesIn(old(fs.State()), ConfigsRoot(baseDir)) == {}
    ensures outcome.UserDirMissing? || outcome.ConfigsMissing? || outcome.NoSnapshots? ==> fs.State() == old(fs.State())
    ensures outcome.Aborted? || outcome.Synced? ==> IsNewestSnapshot(old(fs.State()), ConfigsRoot(baseDir), outcome.snapshot)
    ensures outcome.Aborted? ==> ConfigCopied(old(fs.State()), fs.decodable, ConfigsRoot(baseDir) + [outcome.snapshot], UserDir(os, folders)).None?
    ensures outcome.Synced? ==>
      var restored := ConfigCopied(old(fs.State()), fs.decodable, ConfigsRoot(baseDir) + [outcome.snapshot], UserDir(os, folders));
      restored.Some? && fs.State() == restored.value
    ensures outcome.Synced? ==>
      outcome.installs == InstallsFor(old(fs.State()), ConfigsRoot(baseDir) + [outcome.snapshot], os, onPath, existing, readLines)
    ensures ConfinedTo(old(fs.State()), fs.State(), UserDir(os, folders))
  {
    var userDir := UserDir(os, folders);
    if userDir !in fs.dirs {
      return UserDirMissing;
    }
    var configsRoot := ConfigsRoot(baseDir);
    if configsRoot !in fs.dirs {
      return ConfigsMissing;
    }
    outcome := SyncLatest(fs, configsRoot, userDir, os, onPath, existing, readLines);
  }

  // ---------------------------------------------------------------------
  // CollectConfig
  // ---------------------------------------------------------------------

  datatype CollectOutcome =
    | NoUserDir
      /** Creating a folder or a copy step threw. */
    | CollectAborted
      /**
       * Saved to `Configs/<snapshot>`; `listCommand` is the command run to
       * list the extensions and `exported` says whether `extensions.txt`
       * was written.
       */
    | Collected(snapshot: string, listCommand: string, exported: bool)

  /** The folders collect creates before copying: `Configs` and the snapshot folder. */
  function Prepared(t: Tree, configsRoot: Path, targetDir: Path): Tree {
    WithDirectory(WithDirectory(t, configsRoot), targetDir)
  }

  /** Saving the listing output as `extensions.txt`, unless there is none or a folder of that name is in the way. */
  function Exported(t: Tree, targetDir: Path, listOutput: Option<Bytes>): Tree {
    var p := targetDir + [ExtensionsFile];
    if listOutput.Some? && p !in t.dirs then Tree(t.files[p := listOutput.value], t.dirs) else t
  }

  /**
   * What saving into `configsRoot + [name]` leaves behind when it completes,
   * and `None` when it throws: creating `Configs` or the snapshot folder
   * throws when a file lies on the way to it, and then a copy step may throw.
   */
  ghost function Saved(t: Tree, decodable: Bytes -> bool, userDir: Path, configsRoot: Path, name: string,
                       listOutput: Option<Bytes>): Option<Tree> {
    var targetDir := configsRoot + [name];
    if !NoFileOnPath(t, targetDir) then None
    else
      var copied := ConfigCopied(Prepared(t, configsRoot, targetDir), decodable, userDir, targetDir);
      if copied.Some? then Some(Exported(copied.value, targetDir, listOutput)) else None
  }

  /**
   * The body of `CollectConfig` once the user directory is known to exist:
   * create `Configs` and `Configs/<name>`, copy the three items, then save
   * the extension list. The creations and copies throw on a clash; the
   * export catches its failure.
   */
  method SaveSnapshot(fs: FileSystem, userDir: Path, configsRoot: Path, name: string, listOutput: Option<Bytes>)
    returns (ok: bool, exported: bool)
    requires fs.Valid() && !Nested(userDir, configsRoot)
    modifies fs
    ensures fs.Valid()
    ensures ok <==> Saved(old(fs.State()), fs.decodable, userDir, configsRoot, name, listOutput).Some?
    ensures ok ==> Saved(old(fs.State()), fs.decodable, userDir, configsRoot, name, listOutput) == Some(fs.State())
    ensures exported ==> ok
    ensures ok ==> (exported <==> listOutput.Some? && configsRoot + [name, ExtensionsFile] !in fs.dirs)
    ensures ok && exported ==>
      && listOutput.Some?
      && configsRoot + [name, ExtensionsFile] in fs.files
      && fs.files[configsRoot + [name, ExtensionsFile]] == listOutput.value
    ensures ConfinedTo(old(fs.State()), fs.State(), configsRoot + [name])
  {
    ghost var t0 := fs.State();
    var targetDir := configsRoot + [name];
    PrefixOfConcat(configsRoot, [name]);
    exported := false;
    ok := PrepareSnapshot(fs, configsRoot, name);
    if !ok {
      return;
    }
    ghost var t1 := fs.State();
    InsideApart(configsRoot, userDir, targetDir);
    ok := CopyConfig(fs, userDir, targetDir);
    ConfinedTransitive(t0, t1, fs.State(), targetDir);
    if !ok {
      return;
    }
    ghost var t2 := fs.State();
    assert targetDir + [ExtensionsFile] == configsRoot + [name, ExtensionsFile];
    exported := ExportExtensions(fs, targetDir, listOutput);
    ConfinedTransitive(t0, t2, fs.State(), targetDir);
  }

  /** `Directory.CreateDirectory(configsRoot)` and then `Directory.CreateDirectory(configsRoot + [name])`. */
  method PrepareSnapshot(fs: FileSystem, configsRoot: Path, name: string) returns (ok: bool)
    requires fs.Valid()
    modifies fs
    ensures fs.Valid()
    ensures ok <==> NoFileOnPath(old(fs.State()), configsRoot + [name])
    ensures ok ==> fs.State() == Prepared(old(fs.State()), configsRoot, configsRoot + [name])
    ensures ConfinedTo(old(fs.State()), fs.State(), configsRoot + [name])
  {
    ghost var t0 := fs.State();
    var targetDir := configsRoot + [name];
    PrefixOfConcat(configsRoot, [name]);
    PreparedConfined(t0, configsRoot, name);
    ok := fs.CreateDirectory(configsRoot);
    if !ok {
      ghost var i :| 0 <= i <= |configsRoot| && configsRoot[..i] in t0.files;
      assert targetDir[..i] == configsRoot[..i];
      return;
    }
    ok := fs.CreateDirectory(targetDir);
  }

  /**
   * The export of the extension list: `extensions.txt` in `targetDir` gets
   * the output of the list command. Both a failed listing and a failed write
   * are caught, and then nothing is written.
   */
  method ExportExtensions(fs: FileSystem, targetDir: Path, listOutput: Option<Bytes>) returns (exported: bool)
    requires fs.Valid() && targetDir in fs.dirs
    modifies fs
    ensures fs.Valid()
    ensures exported <==> listOutput.Some? && targetDir + [ExtensionsFile] !in old(fs.dirs)
    ensures fs.State() == Exported(old(fs.State()), targetDir, listOutput)
    ensures ConfinedTo(old(fs.State()), fs.State(), targetDir)
  {
    ExportConfined(fs.State(), targetDir, listOutput);
    assert Parent(targetDir + [ExtensionsFile]) == targetDir;
    exported := false;
    if listOutput.Some? {
      exported := fs.WriteFile(targetDir + [ExtensionsFile], listOutput.value);
    }
  }

  /**
   * `CollectConfig` at the local time `now`. `listOutput` is what running
   * the list command printed, or `None` when running it threw; either
   * way the failure to export is caught and collect completes.
   */
  method CollectConfig(fs: FileSystem, os: Os, folders: Folders, baseDir: Path, onPath: bool, existing: set<string>,
                       now: Timestamp, listOutput: Option<Bytes>) returns (outcome: CollectOutcome)
    requires fs.Valid() && Snapshots.Valid(now)
    requires !Nested(UserDir(os, folders), ConfigsRoot(baseDir))
    modifies fs
    ensures fs.Valid()
    ensures outcome == NoUserDir <==> UserDir(os, folders) !in old(fs.dirs)
    ensures outcome == NoUserDir ==> fs.State() == old(fs.State())
    ensures outcome == CollectAborted <==>
      UserDir(os, folders) in old(fs.dirs)
      && Saved(old(fs.State()), fs.decodable, UserDir(os, folders), ConfigsRoot(baseDir), Format(now), listOutput).None?
    ensures outcome.Collected? ==>
      && outcome.snapshot == Format(now)
      && outcome.listCommand == ListExtensionsCommand(os, onPath, existing)
      && Saved(old(fs.State()), fs.decodable, UserDir(os, folders), ConfigsRoot(baseDir), Format(now), listOutput) == Some(fs.State())
    ensures outcome.Collected? ==>
      (outcome.exported <==> listOutput.Some? && ConfigsRoot(baseDir) + [Format(now), ExtensionsFile] !in fs.dirs)
    ensures outcome.Collected? && outcome.exported ==>
      var p := ConfigsRoot(baseDir) + [Format(now), ExtensionsFile];
      listOutput.Some? && p in fs.files && fs.files[p] == listOutput.value
    ensures ConfinedTo(old(fs.State()), fs.State(), ConfigsRoot(baseDir) + [Format(now)])
  {
    var userDir := UserDir(os, folders);
    if userDir !in fs.dirs {
      return NoUserDir;
    }
    var name := Format(now);
    var listCommand := ListExtensionsCommand(os, onPath, existing);
    var ok, exported := SaveSnapshot(fs, userDir, ConfigsRoot(baseDir), name, listOutput);
    if !ok {
      return CollectAborted;
    }
    return Collected(name, listCommand, exported);
  }

  /** Creating `Configs` and then `Configs/<name>` adds only the way to the snapshot folder. */
  lemma PreparedConfined(t: Tree, configsRoot: Path, name: string)
    ensures ConfinedTo(t, WithDirectory(t, configsRoot), configsRoot + [name])
    ensures ConfinedTo(t, Prepared(t, configsRoot, configsRoot + [name]), configsRoot + [name])
  {
    forall p | p in Prefixes(configsRoot)
      ensures IsPrefix(p, configsRoot + [name])
    {
      PrefixOfChild(p, configsRoot, name);
    }
  }

  lemma ExportConfined(t: Tree, targetDir: Path, listOutput: Option<Bytes>)
    ensures ConfinedTo(t, Exported(t, targetDir, listOutput), targetDir)
  {
    PrefixOfConcat(targetDir, [ExtensionsFile]);
  }

  /** A collect that completes leaves the user's settings, re-encoded, in the new snapshot folder. */
  lemma SavedSettings(t: Tree, decodable: Bytes -> bool, userDir: Path, configsRoot: Path, name: string, listOutput: Option<Bytes>)
    requires !Nested(userDir, configsRoot)
    requires userDir + [SettingsFile] in t.files
    requires Saved(t, decodable, userDir, configsRoot, name, listOutput).Some?
    ensures var r := Saved(t, decodable, userDir, configsRoot, name, listOutput).value;
      && configsRoot + [name, SettingsFile] in r.files
      && r.files[configsRoot + [name, SettingsFile]] == Normalize(t.files[userDir + [SettingsFile]])
  {
    var targetDir := configsRoot + [name];
    PrefixOfConcat(configsRoot, [name]);
    InsideApart(configsRoot, userDir, targetDir);
    ConfigCopiedSettings(Prepared(t, configsRoot, targetDir), decodable, userDir, targetDir);
    assert (targetDir + [SettingsFile])[|targetDir|] == SettingsFile;
    assert (targetDir + [ExtensionsFile])[|targetDir|] == ExtensionsFile;
    assert targetDir + [SettingsFile] == configsRoot + [name, SettingsFile];
  }

  /** A completed collect leaves the user's key bindings, re-encoded, in the new snapshot folder. */
  lemma SavedKeybindings(t: Tree, decodable: Bytes -> bool, userDir: Path, configsRoot: Path, name: string, listOutput: Option<Bytes>)
    requires !Nested(userDir, configsRoot)
    requires userDir + [KeybindingsFile] in t.files
    requires Saved(t, decodable, userDir, configsRoot, name, listOutput).Some?
    ensures var r := Saved(t, decodable, userDir, configsRoot, name, listOutput).value;
      && configsRoot + [name, KeybindingsFile] in r.files
      && r.files[configsRoot + [name, KeybindingsFile]] == Normalize(t.files[userDir + [KeybindingsFile]])
  {
    var targetDir := configsRoot + [name];
    PrefixOfConcat(configsRoot, [name]);
    InsideApart(configsRoot, userDir, targetDir);
    ConfigCopiedKeybindings(Prepared(t, configsRoot, targetDir), decodable, userDir, targetDir);
    assert (targetDir + [KeybindingsFile])[|targetDir|] == KeybindingsFile;
    assert (targetDir + [ExtensionsFile])[|targetDir|] == ExtensionsFile;
    assert targetDir + [KeybindingsFile] == configsRoot + [name, KeybindingsFile];
  }

  /** A folder with no file on the way to it has no file on the way to its parent folders either. */
  lemma NoFileOnPathPrefix(t: Tree, a: Path, d: Path)
    requires NoFileOnPath(t, d) && IsPrefix(a, d)
    ensures NoFileOnPath(t, a)
  {
    forall i | 0 <= i <= |a|
      ensures a[..i] !in t.files
    {
      assert a[..i] == d[..i];
    }
  }

  /** Creating the two folders of a save that can complete keeps the tree well formed. */
  lemma PreparedWellFormed(t: Tree, configsRoot: Path, name: string)
    requires WellFormed(t) && NoFileOnPath(t, configsRoot + [name])
    ensures WellFormed(Prepared(t, configsRoot, configsRoot + [name]))
  {
    PrefixOfConcat(configsRoot, [name]);
    NoFileOnPathPrefix(t, configsRoot, configsRoot + [name]);
    WithDirectoryWellFormed(t, configsRoot);
    WithDirectoryWellFormed(WithDirectory(t, configsRoot), configsRoot + [name]);
  }

  /** A completed save is the export applied to the completed copy into the prepared snapshot folder. */
  lemma SavedParts(t: Tree, decodable: Bytes -> bool, userDir: Path, configsRoot: Path, name: string, listOutput: Option<Bytes>)
    requires Saved(t, decodable, userDir, configsRoot, name, listOutput).Some?
    ensures var targetDir := configsRoot + [name];
      var copied := ConfigCopied(Prepared(t, configsRoot, targetDir), decodable, userDir, targetDir);
      && NoFileOnPath(t, targetDir)
      && copied.Some?
      && Saved(t, decodable, userDir, configsRoot, name, listOutput).value == Exported(copied.value, targetDir, listOutput)
  {
  }

  /** The export writes `extensions.txt` and nothing else. */
  lemma ExportedKeeps(t: Tree, targetDir: Path, listOutput: Option<Bytes>, q: Path)
    requires q != targetDir + [ExtensionsFile]
    ensures q in Exported(t, targetDir, listOutput).files <==> q in t.files
    ensures q in t.files ==> Exported(t, targetDir, listOutput).files[q] == t.files[q]
  {
  }

  /** The copy into the prepared snapshot folder puts every snippet of the user at the same place below it. */
  lemma PreparedSnippets(t: Tree, decodable: Bytes -> bool, userDir: Path, configsRoot: Path, name: string, p: Path)
    requires WellFormed(t) && !Nested(userDir, configsRoot) && NoFileOnPath(t, configsRoot + [name])
    requires p in t.files && IsStrictPrefix(userDir + [SnippetsDir], p)
    requires ConfigCopied(Prepared(t, configsRoot, configsRoot + [name]), decodable, userDir, configsRoot + [name]).Some?
    ensures var copied := ConfigCopied(Prepared(t, configsRoot, configsRoot + [name]), decodable, userDir, configsRoot + [name]).value;
      var q := configsRoot + [name] + [SnippetsDir] + Rel(userDir + [SnippetsDir], p);
      q in copied.files && copied.files[q] == CopiedContent(FileName(p), t.files[p], decodable)
  {
    var targetDir := configsRoot + [name];
    PrefixOfConcat(configsRoot, [name]);
    InsideApart(configsRoot, userDir, targetDir);
    PreparedWellFormed(t, configsRoot, name);
    ConfigCopiedSnippets(Prepared(t, configsRoot, targetDir), decodable, userDir, targetDir, p);
  }

  /** A completed collect leaves every snippet of the user, at every depth, at the same place below the new snapshot folder. */
  lemma SavedSnippets(t: Tree, decodable: Bytes -> bool, userDir: Path, configsRoot: Path, name: string,
                      listOutput: Option<Bytes>, p: Path)
    requires WellFormed(t) && !Nested(userDir, configsRoot)
    requires p in t.files && IsStrictPrefix(userDir + [SnippetsDir], p)
    requires Saved(t, decodable, userDir, configsRoot, name, listOutput).Some?
    ensures var r := Saved(t, decodable, userDir, configsRoot, name, listOutput).value;
      var q := configsRoot + [name, SnippetsDir] + Rel(userDir + [SnippetsDir], p);
      && q in r.files
      && r.files[q] == CopiedContent(FileName(p), t.files[p], decodable)
  {
    var targetDir := configsRoot + [name];
    var q := targetDir + [SnippetsDir] + Rel(userDir + [SnippetsDir], p);
    SavedParts(t, decodable, userDir, configsRoot, name, listOutput);
    PreparedSnippets(t, decodable, userDir, configsRoot, name, p);
    assert q != targetDir + [ExtensionsFile] by {
      assert q[|targetDir|] == SnippetsDir && (targetDir + [ExtensionsFile])[|targetDir|] == ExtensionsFile;
    }
    ExportedKeeps(ConfigCopied(Prepared(t, configsRoot, targetDir), decodable, userDir, targetDir).value, targetDir, listOutput, q);
    TwoSegments(configsRoot, name, SnippetsDir, Rel(userDir + [SnippetsDir], p));
  }

  lemma TwoSegments(a: Path, x: string, y: string, r: Path)
    ensures a + [x] + [y] + r == a + [x, y] + r
  {
    assert a + [x] + [y] == a + [x, y];
  }

  // ---------------------------------------------------------------------
  // A collect followed by a sync
  // ---------------------------------------------------------------------

  /** A completed save changes nothing outside the snapshot folder, deletes nothing, and leaves that folder in place. */
  lemma SavedConfined(t: Tree, decodable: Bytes -> bool, userDir: Path, configsRoot: Path, name: string, listOutput: Option<Bytes>)
    requires Saved(t, decodable, userDir, configsRoot, name, listOutput).Some?
    ensures ConfinedTo(t, Saved(t, decodable, userDir, configsRoot, name, listOutput).value, configsRoot + [name])
    ensures configsRoot + [name] in Saved(t, decodable, userDir, configsRoot, name, listOutput).value.dirs
  {
    var targetDir := configsRoot + [name];
    var prepared := Prepared(t, configsRoot, targetDir);
    SavedParts(t, decodable, userDir, configsRoot, name, listOutput);
    var copied := ConfigCopied(prepared, decodable, userDir, targetDir).value;
    PreparedConfined(t, configsRoot, name);
    ConfigCopiedConfined(prepared, decodable, userDir, targetDir);
    ExportConfined(copied, targetDir, listOutput);
    ConfinedTransitive(t, prepared, copied, targetDir);
    ConfinedTransitive(t, copied, Exported(copied, targetDir, listOutput), targetDir);
    assert targetDir in prepared.dirs;
  }

  /** Two children of one folder that lie on one another's way are the same child. */
  lemma SiblingPrefix(a: Path, x: string, y: string)
    requires IsPrefix(a + [x], a + [y]) || IsPrefix(a + [y], a + [x])
    ensures x == y
  {
    assert (a + [x])[|a|] == x && (a + [y])[|a|] == y;
  }

  /**
   * After a collect at the local time `now`, when every snapshot already in
   * `Configs` is named after an earlier local time, the snapshot sync
   * selects is the new one, and no other.
   */
  lemma CollectedIsSelected(t: Tree, decodable: Bytes -> bool, userDir: Path, configsRoot: Path, now: Timestamp,
                            listOutput: Option<Bytes>, earlier: seq<Timestamp>, n: string)
    requires Snapshots.Valid(now)
    requires forall i :: 0 <= i < |earlier| ==> Snapshots.Valid(earlier[i]) && Instant(earlier[i]) < Instant(now)
    requires forall m :: m in SubdirNamesIn(t, configsRoot) ==> exists i :: 0 <= i < |earlier| && m == Format(earlier[i])
    requires Saved(t, decodable, userDir, configsRoot, Format(now), listOutput).Some?
    ensures var r := Saved(t, decodable, userDir, configsRoot, Format(now), listOutput).value;
      IsNewestSnapshot(r, configsRoot, n) <==> n == Format(now)
  {
    SavedConfined(t, decodable, userDir, configsRoot, Format(now), listOutput);
    NewSnapshotIsNewest(t, Saved(t, decodable, userDir, configsRoot, Format(now), listOutput).value, configsRoot, now, earlier, n);
  }

  /** Adding the snapshot folder of `now` to a `Configs` of earlier snapshots makes it the one sync selects. */
  lemma NewSnapshotIsNewest(t: Tree, r: Tree, configsRoot: Path, now: Timestamp, earlier: seq<Timestamp>, n: string)
    requires Snapshots.Valid(now)
    requires forall i :: 0 <= i < |earlier| ==> Snapshots.Valid(earlier[i]) && Instant(earlier[i]) < Instant(now)
    requires forall m :: m in SubdirNamesIn(t, configsRoot) ==> exists i :: 0 <= i < |earlier| && m == Format(earlier[i])
    requires ConfinedTo(t, r, configsRoot + [Format(now)]) && configsRoot + [Format(now)] in r.dirs
    ensures IsNewestSnapshot(r, configsRoot, n) <==> n == Format(now)
  {
    var name := Format(now);
    forall m | m in SubdirNamesIn(r, configsRoot)
      ensures LessEq(m, name)
    {
      if configsRoot + [m] in t.dirs {
        assert m in SubdirNamesIn(t, configsRoot);
        var i :| 0 <= i < |earlier| && m == Format(earlier[i]);
        FormatOrder(earlier[i], now);
      } else {
        SiblingPrefix(configsRoot, m, name);
      }
    }
    assert IsNewestSnapshot(r, configsRoot, name);
    if IsNewestSnapshot(r, configsRoot, n) && n != name {
      Asymmetric(n, name);
    }
  }

  /** A completed collect made while the user had a `snippets` folder leaves one in the snapshot folder. */
  lemma SavedSnippetsDir(t: Tree, decodable: Bytes -> bool, userDir: Path, configsRoot: Path, name: string, listOutput: Option<Bytes>)
    requires !Nested(userDir, configsRoot) && userDir + [SnippetsDir] in t.dirs
    requires Saved(t, decodable, userDir, configsRoot, name, listOutput).Some?
    ensures configsRoot + [name] + [SnippetsDir] in Saved(t, decodable, userDir, configsRoot, name, listOutput).value.dirs
  {
    var targetDir := configsRoot + [name];
    var prepared := Prepared(t, configsRoot, targetDir);
    SavedParts(t, decodable, userDir, configsRoot, name, listOutput);
    PrefixOfConcat(configsRoot, [name]);
    InsideApart(configsRoot, userDir, targetDir);
    var t1 := CopyIfExistsEffect(prepared, decodable, userDir + [SettingsFile], targetDir).1;
    var t2 := CopyIfExistsEffect(t1, decodable, userDir + [KeybindingsFile], targetDir).1;
    CopyStepKeepsSource(prepared, decodable, userDir, targetDir, SettingsFile);
    CopyStepKeepsSource(t1, decodable, userDir, targetDir, KeybindingsFile);
    var src := userDir + [SnippetsDir];
    MirrorCreatesEveryDirectory(t2, src, targetDir + [SnippetsDir], decodable, src);
    assert targetDir + [SnippetsDir] + Rel(src, src) == targetDir + [SnippetsDir];
  }

  /** Restoring the snapshot a collect just made brings the user's settings back, re-encoded by both copies. */
  lemma CollectThenRestoreSettings(t: Tree, decodable: Bytes -> bool, userDir: Path, configsRoot: Path, name: string,
                                   listOutput: Option<Bytes>)
    requires !Nested(userDir, configsRoot)
    requires userDir + [SettingsFile] in t.files
    requires Saved(t, decodable, userDir, configsRoot, name, listOutput).Some?
    requires ConfigCopied(Saved(t, decodable, userDir, configsRoot, name, listOutput).value, decodable, configsRoot + [name], userDir).Some?
    ensures var back := ConfigCopied(Saved(t, decodable, userDir, configsRoot, name, listOutput).value, decodable, configsRoot + [name], userDir).value;
      && userDir + [SettingsFile] in back.files
      && back.files[userDir + [SettingsFile]] == Normalize(Normalize(t.files[userDir + [SettingsFile]]))
  {
    var targetDir := configsRoot + [name];
    var r := Saved(t, decodable, userDir, configsRoot, name, listOutput).value;
    SavedSettings(t, decodable, userDir, configsRoot, name, listOutput);
    PrefixOfConcat(configsRoot, [name]);
    InsideApart(configsRoot, userDir, targetDir);
    assert targetDir + [SettingsFile] == configsRoot + [name, SettingsFile];
    ConfigCopiedSettings(r, decodable, targetDir, userDir);
  }

  /** Restoring the snapshot a collect just made brings the user's key bindings back, re-encoded by both copies. */
  lemma CollectThenRestoreKeybindings(t: Tree, decodable: Bytes -> bool, userDir: Path, configsRoot: Path, name: string,
                                      listOutput: Option<Bytes>)
    requires !Nested(userDir, configsRoot)
    requires userDir + [KeybindingsFile] in t.files
    requires Saved(t, decodable, userDir, configsRoot, name, listOutput).Some?
    requires ConfigCopied(Saved(t, decodable, userDir, configsRoot, name, listOutput).value, decodable, configsRoot + [name], userDir).Some?
    ensures var back := ConfigCopied(Saved(t, decodable, userDir, configsRoot, name, listOutput).value, decodable, configsRoot + [name], userDir).value;
      && userDir + [KeybindingsFile] in back.files
      && back.files[userDir + [KeybindingsFile]] == Normalize(Normalize(t.files[userDir + [KeybindingsFile]]))
  {
    var targetDir := configsRoot + [name];
    var r := Saved(t, decodable, userDir, configsRoot, name, listOutput).value;
    SavedKeybindings(t, decodable, userDir, configsRoot, name, listOutput);
    PrefixOfConcat(configsRoot, [name]);
    InsideApart(configsRoot, userDir, targetDir);
    assert targetDir + [KeybindingsFile] == configsRoot + [name, KeybindingsFile];
    ConfigCopiedKeybindings(r, decodable, targetDir, userDir);
  }

  /**
   * Restoring the snapshot a collect just made brings every snippet file of
   * the user back to its own place, passed twice through the copy's re-encoding.
   */
  lemma CollectThenRestoreSnippets(t: Tree, decodable: Bytes -> bool, userDir: Path, configsRoot: Path, name: string,
                                   listOutput: Option<Bytes>, p: Path)
    requires WellFormed(t) && !Nested(userDir, configsRoot)
    requires p in t.files && IsStrictPrefix(userDir + [SnippetsDir], p)
    requires Saved(t, decodable, userDir, configsRoot, name, listOutput).Some?
    requires ConfigCopied(Saved(t, decodable, userDir, configsRoot, name, listOutput).value, decodable, configsRoot + [name], userDir).Some?
    ensures var back := ConfigCopied(Saved(t, decodable, userDir, configsRoot, name, listOutput).value, decodable, configsRoot + [name], userDir).value;
      && p in back.files
      && back.files[p] == CopiedContent(FileName(p), CopiedContent(FileName(p), t.files[p], decodable), decodable)
  {
    var targetDir := configsRoot + [name];
    var r := Saved(t, decodable, userDir, configsRoot, name, listOutput).value;
    var x := Rel(userDir + [SnippetsDir], p);
    var q := targetDir + [SnippetsDir] + x;
    SavedSnippets(t, decodable, userDir, configsRoot, name, listOutput, p);
    TwoSegments(configsRoot, name, SnippetsDir, x);
    AncestorsOfFile(t, p, userDir + [SnippetsDir]);
    SavedSnippetsDir(t, decodable, userDir, configsRoot, name, listOutput);
    PrefixOfConcat(targetDir + [SnippetsDir], x);
    PrefixOfConcat(configsRoot, [name]);
    InsideApart(configsRoot, userDir, targetDir);
    ConfigCopiedSnippetsBelow(r, decodable, targetDir, userDir, q);
    assert FileName(q) == FileName(p) by {
      assert q[|q| - 1] == x[|x| - 1] == p[|p| - 1];
    }
  }
}
