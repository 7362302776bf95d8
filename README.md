# VsCodeSyncConfig in Dafny

VsCodeSyncConfig is a small console tool. It saves the VS Code user
configuration into a timestamped snapshot folder `Configs/<yyyy-MM-dd-HHmmss>`
next to the tool ("collect"). It can also copy the snapshot whose name sorts last back into
the VS Code user directory and reinstall the saved extensions ("sync"). This
project models the decision and copy logic of `Source/Program.cs`, where all
of that logic lives. It proves what that logic promises.

The modules follow the program's own parts:

- `Paths` (`paths.dfy`): a path is a sequence of segments, so
  `Path.Combine(a, b)` becomes `a + [b]`. Prefix, parent, file-name and
  relative-path facts.
- `Wrappers` (`wrappers.dfy`): the `Option` type, for a snapshot that may
  be missing, a step that may throw, and listing output that may be absent.
- `Text` (`text.dfy`): the .NET helpers the tool relies on.
  - `Normalize` is re-saving as UTF-8 without a byte-order mark. It strips one
    leading mark.
  - `String.Trim`, `String.IsNullOrWhiteSpace`, `Path.GetExtension` and
    `ToLowerInvariant`.
  - The quote escaping of `GetShellArguments`.
- `Ordinal` (`ordinal.dfy`): `StringComparer.Ordinal` as a strict total order.
- `FileSystems` (`filesystem.dfy`): a `FileSystem` class whose fields are a
  map from file path to bytes and a set of directories. It has the `System.IO`
  operations the copy code calls: `CreateDirectory`, `File.Copy`,
  `WriteAllText`, re-encoding, and the two listings. The exceptions modelled
  are those a clash of names raises: a file where a folder is needed, a
  folder where a file is needed, or a file copied onto itself. Such an
  operation reports `false` and changes nothing. Other I/O failures are not
  modelled (see "Left out").
- `TreeCopy` (`copy.dfy`):
  - `CopyIfExists`, as a method specified by the function
    `CopyIfExistsEffect`.
  - `CopyDirectory`, as a recursive method with its two loops. It is proved
    against the value `Mirror`: the tree the copy is meant to produce.
  - The lemmas about `Mirror` state the promises of the copy.
- `Snapshots` (`snapshots.dfy`):
  - the proleptic Gregorian calendar and the `yyyy-MM-dd-HHmmss` name of a
    time;
  - the ordinal maximum of a listing;
  - the proof that ordinal order of names is the order of the local clock
    readings they name, so sync selects the collect with the latest local
    time.
- `Platforms` (`platform.dfy`): the per-platform user directory, shell and
  shell arguments; the launcher fallback ladder shared by the two CLI command
  builders; the project root.
- `Extensions` (`extensions.dfy`): the `Select(Trim).Where(not blank)`
  projection of `extensions.txt`, and the install loop.
- `ConfigSync` (`config.dfy`): `SyncConfig` and `CollectConfig` themselves,
  built from the pieces above. Their outcomes are datatypes: which early
  return was taken, and whether a copy step threw.

These come from the environment and are parameters:

- the operating system;
- the special folders;
- the base directory of the executable;
- the clock reading;
- what the `command -v code` probe answered;
- which fallback launcher files exist;
- the output of `code --list-extensions`;
- `File.ReadAllLines`, given as `readLines`;
- whether a file decodes as UTF-8, given as `FileSystem.decodable`.

## Model

| member | source | states |
|---|---|---|
| Text.Normalize | Source/Program.cs:181-183 | the input is the result with at most one leading UTF-8 byte-order mark in front; nothing else is changed |
| Text.NormalizeDropsOneMark | Source/Program.cs:182-183 | re-saving marked text gives back exactly the text behind the mark |
| Text.NormalizeShape | Source/Program.cs:182-183 | the result is three bytes shorter exactly when there was a mark; it starts with a mark only if the input carried two |
| Text.Trim | Source/Program.cs:127 | the result is no longer than the input and neither starts nor ends with white space |
| Text.TrimIsSlice | Source/Program.cs:127 | the trimmed string is a contiguous slice of the input; everything removed before and after it is white space |
| Text.TrimBlank | Source/Program.cs:127 | a trimmed line is blank exactly when it is empty, and exactly when the untrimmed line was blank |
| Text.TrimIdempotent | Source/Program.cs:127 | trimming twice is trimming once |
| Text.TrimStartDropsBlank | Source/Program.cs:127 | what the leading trim removes is all white space |
| Text.TrimEndDropsBlank | Source/Program.cs:127 | what the trailing trim removes is all white space |
| Text.Extension | Source/Program.cs:199 | `Path.GetExtension`: never longer than the name; its shape is stated by `Text.ExtensionShape` |
| Text.ExtensionShape | Source/Program.cs:199 | the extension is empty exactly when the name has no dot or ends in one; otherwise it is a suffix of the name of at least two characters that starts at the name's last dot |
| Text.ToLowerInvariant | Source/Program.cs:199 | same length as the input |
| Text.ToLowerInvariantChars | Source/Program.cs:199 | each character is mapped by the lower-casing of letters |
| Text.EscapeQuotes | Source/Program.cs:232 | every double quote of the result has a backslash right before it; nothing is removed |
| Text.EscapeRoundTrip | Source/Program.cs:232 | reading the backslash-quote pairs back as quotes recovers the original command |
| Text.EscapeWithoutQuotes | Source/Program.cs:232 | a command without double quotes is not changed by the escaping |
| Ordinal.Irreflexive | Source/Program.cs:102 | no string is ordinally below itself |
| Ordinal.Asymmetric | Source/Program.cs:102 | two strings are never each ordinally below the other |
| Ordinal.Transitive | Source/Program.cs:102 | the ordinal order is transitive |
| Ordinal.Total | Source/Program.cs:102 | of two distinct strings one is ordinally below the other |
| Ordinal.CommonPrefix | Source/Program.cs:101-102 | strings with a common prefix compare as their remainders do |
| Ordinal.ConcatSameLength | Source/Program.cs:102 | after first parts of one length, the first parts decide unless they are equal |
| FileSystems.WithDirectory | Source/Program.cs:191 | creating a directory adds it and all its ancestors and touches no file |
| FileSystems.WithDirectoryWellFormed | Source/Program.cs:191 | creating a directory where no file is in the way keeps the filesystem well formed |
| FileSystems.FileNamesIn | Source/Program.cs:192 | a name is listed exactly when a file of that name lies directly in the folder |
| FileSystems.SubdirNamesIn | Source/Program.cs:213 | a name is listed exactly when a subfolder of that name lies directly in the folder |
| FileSystems.FileSystem.ListFiles | Source/Program.cs:192 | `Directory.GetFiles`: each direct file once, in an order left open |
| FileSystems.FileSystem.ListSubdirs | Source/Program.cs:213 | `Directory.GetDirectories`: each direct subfolder once, in an order left open |
| FileSystems.FileSystem.CreateDirectory | Source/Program.cs:191 | succeeds exactly when no file stands on the path; then the directory and its ancestors exist; otherwise nothing changes |
| FileSystems.FileSystem.CopyFile | Source/Program.cs:195 | overwriting copy; fails, changing nothing, exactly when the destination is a directory or is the source file itself |
| FileSystems.FileSystem.WriteFile | Source/Program.cs:71 | writes the bytes; fails, changing nothing, exactly when the path is a directory |
| FileSystems.FileSystem.Reencode | Source/Program.cs:204-205 | rewrites the file as `Normalize` of its bytes exactly when those decode; otherwise changes nothing |
| TreeCopy.CopyIfExistsEffect | Source/Program.cs:173-187 | an absent source changes nothing; a completed copy leaves the target folder and `target/<name>` holding the normalized source; it completes exactly when no file blocks the target folder, no folder blocks the destination, the destination is not the source itself, and the source decodes; no other path changes |
| TreeCopy.CopyIfExists | Source/Program.cs:173-187 | the method's outcome and new state are the ones `CopyIfExistsEffect` describes, so copying a file into its own folder throws |
| TreeCopy.IsTextFileOfName | Source/Program.cs:199-200 | whether a file is re-encoded depends only on what follows its last dot, lower-cased |
| TreeCopy.NoExtensionNotText | Source/Program.cs:199-200 | a name without an extension is never re-encoded |
| TreeCopy.MirrorCopiesEveryFile | Source/Program.cs:192-215 | every file at any depth below the source has its copy at the same relative path below the target |
| TreeCopy.MirrorCreatesEveryDirectory | Source/Program.cs:213-215 | every directory below the source, and the target itself, exists at the same relative path below the target |
| TreeCopy.MirrorKeepsOthers | Source/Program.cs:195 | nothing is deleted; a file that is not the copy of a source file keeps its contents |
| TreeCopy.MirrorAddsOnlyCopies | Source/Program.cs:189-216 | every new file is the copy of a source file; every new directory is an ancestor of the target or the copy of a source directory |
| TreeCopy.MirrorReencodesExactlyText | Source/Program.cs:199-211 | a copy is normalized exactly when its lower-cased extension is `.json`, `.code-snippets` or `.txt` and it decodes; every other copy is byte for byte the source |
| TreeCopy.MirrorConfined | Source/Program.cs:189-216 | outside the target nothing changes |
| TreeCopy.CopyDirectory | Source/Program.cs:189-216 | completes exactly when the mirror has no path that is both a file and a folder, and then the filesystem is the mirror; in every case only the target changes |
| TreeCopy.CopyFiles | Source/Program.cs:192-212 | the file loop copies every direct file in any listing order, or reports a clash of the mirror |
| TreeCopy.CopyFileEntry | Source/Program.cs:194-211 | one file: copied, and re-encoded when it is text and decodes; fails exactly on a folder at the destination or when source and target folders are one |
| TreeCopy.CopyListedFiles | Source/Program.cs:192-212 | the loop over a listing copies its names in order: either all of them, or it stops at a name whose destination is a folder, having copied exactly the names before it |
| TreeCopy.CopyListedFile | Source/Program.cs:194-211 | one pass of that loop: the fold of copies grows by this name's copy, or the copy throws on a folder at the destination and nothing changes |
| TreeCopy.CopySubdirectories | Source/Program.cs:213-216 | the recursive calls over the subfolders, in any listing order, complete the mirror or report its clash |
| TreeCopy.SubdirStep | Source/Program.cs:213-216 | each recursive call is apart from its target, has less below its source, and extends the loop's state toward the mirror |
| TreeCopy.FileClash | Source/Program.cs:195 | a failing file copy is a clash of the whole mirror |
| Snapshots.YearLength | Source/Program.cs:50 | the day count of the calendar gives 366 days to leap years and 365 to others |
| Snapshots.DayNumberOrder | Source/Program.cs:50 | a date before another has a smaller day number |
| Snapshots.InstantOrder | Source/Program.cs:50 | one time is earlier than another exactly when its fields are smaller, most significant first; equal instants are equal times |
| Snapshots.Digits | Source/Program.cs:50 | a zero-padded field has exactly its width, all decimal digits |
| Snapshots.DigitsOrder | Source/Program.cs:50 | padded numbers of one width compare ordinally as they compare numerically |
| Snapshots.Format | Source/Program.cs:50 | the name has 17 characters, dashes at positions 4, 7 and 10, digits elsewhere |
| Snapshots.DatePartOrder | Source/Program.cs:50 | the `yyyy-MM-dd-` halves compare ordinally as the dates do |
| Snapshots.TimePartOrder | Source/Program.cs:50 | the `HHmmss` halves compare ordinally as the times of day do |
| Snapshots.FormatOrder | Source/Program.cs:50 | the name of the earlier time is the ordinally smaller; two times share a name exactly when they are the same second |
| Snapshots.Latest | Source/Program.cs:101-104 | none exactly when the listing is empty; otherwise an entry at least every other entry in ordinal order |
| Snapshots.LatestOfSameEntries | Source/Program.cs:101-103 | the choice does not depend on the order of the listing |
| Snapshots.LatestUnderCommonPrefix | Source/Program.cs:101-103 | choosing among full paths under one folder chooses the greatest name |
| Snapshots.LatestIsNewest | Source/Program.cs:101-103 | among snapshot names, sync selects the name of a local time at least as late as all others |
| Snapshots.CollectThenSync | Source/Program.cs:50 | a collect whose local time is later than that of all earlier ones is what the next sync selects |
| Extensions.TrimAll | Source/Program.cs:127 | one trimmed entry per line, in order |
| Extensions.DropBlankMembership | Source/Program.cs:127 | the filter keeps exactly the entries that are not all white space |
| Extensions.DropBlankAppend | Source/Program.cs:127 | the filter works entry by entry, preserving order |
| Extensions.ExtensionIds | Source/Program.cs:127 | never more ids than lines |
| Extensions.IdsAreNonBlankLines | Source/Program.cs:126-127 | a string is an id exactly when some line of the file is not blank and trims to it |
| Extensions.IdsAreTrimmed | Source/Program.cs:127 | every id is non-empty without white space at either end |
| Extensions.ExtensionIdsAppend | Source/Program.cs:126-127 | the ids of two parts of the file follow one another, in file order |
| Extensions.ExtensionIdsOfLine | Source/Program.cs:127 | a single line gives its trimmed text exactly when it is not blank |
| Extensions.ExtensionIdsIdempotent | Source/Program.cs:127 | a list of ids saved one per line reads back as itself |
| Extensions.TrimAllAppend | Source/Program.cs:127 | trimming two parts of the file is trimming each part |
| Extensions.BlankLinesGiveNothing | Source/Program.cs:126-127 | a file of blank lines only gives no id |
| Extensions.IdThenBlankLines | Source/Program.cs:126-127 | an id followed by any number of blank lines gives that id alone |
| Extensions.OneIdAmongBlankLines | Source/Program.cs:126-132 | `["ms-python.python", "", "  "]` gives exactly one id |
| Extensions.InstallCommands | Source/Program.cs:131 | one command per id, in order, each the launcher followed by the install arguments of that id |
| Extensions.InstallAll | Source/Program.cs:126-138 | the commands issued are one per trimmed non-blank line, in file order, each behind the launcher the ladder chooses |
| Extensions.InstallEach | Source/Program.cs:127-138 | the loop issues the install command of each id, in order, built by `GetVSCodeInstallExtensionCommand` |
| Platforms.UserDir | Source/Program.cs:147-163 | the folder ends in `Code/User` below the application-data folder on Windows and the home folder elsewhere |
| Platforms.UserDirsApart | Source/Program.cs:153-162 | with one home folder the macOS and Linux locations lie apart |
| Platforms.ShellCommand | Source/Program.cs:220-225 | `cmd.exe` exactly on Windows, a shell under `/bin/` elsewhere |
| Platforms.ShellArguments | Source/Program.cs:227-233 | Windows gets `/c ` and the command unchanged; elsewhere `-c "…"` whose body unescapes to the command and in which every quote is escaped |
| Platforms.ShellArgumentsWithoutQuotes | Source/Program.cs:231-232 | a command without quotes appears verbatim between the quotes |
| Platforms.FirstAvailable | Source/Program.cs:238-253 | the bare `code` when no candidate is available; when one is, an available candidate; never anything else |
| Platforms.FirstAvailableIsFirst | Source/Program.cs:238-253 | every candidate before the chosen one is unavailable |
| Platforms.LadderOrder | Source/Program.cs:236-273 | outside macOS the bare `code`; on macOS PATH, then the app bundle, then `/opt/homebrew/bin/code`, then `/usr/local/bin/code`, else the bare `code` |
| Platforms.ListExtensionsCommand | Source/Program.cs:236-254 | the list command is the chosen launcher followed by ` --list-extensions` |
| Platforms.InstallExtensionCommand | Source/Program.cs:256-273 | the install command is the chosen launcher followed by ` --install-extension <id> --force` |
| Platforms.SameLauncher | Source/Program.cs:236-273 | both builders start with the same launcher for the same inputs |
| Platforms.ProbeSeesOk | Source/Program.cs:294 | the probe's `OK` line reads as available |
| Platforms.ProbeSeesNo | Source/Program.cs:294 | the probe's `NO` line reads as unavailable |
| Platforms.ProbeOkUsesPath | Source/Program.cs:275-298 | on macOS a probe that prints `OK` puts the ladder on the bare `code` from PATH |
| Platforms.ProbeMissFallsBack | Source/Program.cs:275-298 | on macOS a probe that prints `NO`, or one that throws, sends the ladder on to the app bundle when it exists |
| Platforms.ProjectRoot | Source/Program.cs:166-171 | the parent of the executable's folder, or that folder when it has no parent |
| Platforms.ToolsFolderRoot | Source/Program.cs:165-171 | a tool kept in `<root>/Tools` works on `<root>` |
| ConfigSync.ConfigsRoot | Source/Program.cs:46-47 | `Configs` directly below the project root |
| ConfigSync.CopyIfExistsConfined | Source/Program.cs:173-187 | `CopyIfExists` changes nothing outside its target folder |
| ConfigSync.CopyConfig | Source/Program.cs:112-121 | the three copy steps complete exactly when none throws, and then leave the state `ConfigCopied` describes; only the destination changes |
| ConfigSync.ConfigCopiedSettings | Source/Program.cs:112 | a completed restore leaves the snapshot's `settings.json`, normalized, in the user folder |
| ConfigSync.ConfigCopiedKeybindings | Source/Program.cs:113 | a completed restore leaves the snapshot's `keybindings.json`, normalized, in the user folder |
| ConfigSync.ConfigCopiedSnippets | Source/Program.cs:115-121 | every snippet file at any depth ends up at the same place below the user folder's `snippets` |
| ConfigSync.ConfigCopiedSnippetsBelow | Source/Program.cs:115-121 | in any tree in which the source's `snippets` folder exists, a completed copy puts every file below it, at any depth, at the same place below the destination's `snippets` |
| ConfigSync.ConfigCopiedConfined | Source/Program.cs:112-121 | a completed restore changes nothing outside the user folder and deletes no file |
| ConfigSync.RestoreSnapshot | Source/Program.cs:110-140 | copies the snapshot's three items and issues the install commands of its `extensions.txt`, none without one |
| ConfigSync.SyncLatest | Source/Program.cs:101-140 | returns without change exactly when `Configs` has no subfolder; otherwise picks the newest snapshot and either reports that its restore threw, or leaves the state `ConfigCopied` describes with the installs of its extension list; only the user folder changes |
| ConfigSync.SyncConfig | Source/Program.cs:84-144 | each early return is taken exactly when its folder is missing or there is no snapshot, and changes nothing; otherwise the newest snapshot is restored as `ConfigCopied` says, and the installs are those of its extension list; only the user folder changes |
| ConfigSync.SaveSnapshot | Source/Program.cs:47-77 | completes exactly when `Saved` gives a tree, and that tree is then the state; `extensions.txt` is written, holding the listing output verbatim, exactly when there was output and no folder stands in its place; only the snapshot folder and the way to it change |
| ConfigSync.PrepareSnapshot | Source/Program.cs:47-52 | creating `Configs` and the snapshot folder succeeds exactly when no file stands on the way to the snapshot folder, and then leaves the state `Prepared` describes |
| ConfigSync.ExportExtensions | Source/Program.cs:66-77 | the list is written exactly when there was output and no folder stands at `extensions.txt`; a failure is caught and changes nothing |
| ConfigSync.CollectConfig | Source/Program.cs:37-81 | no user folder exactly when it returns at once, changing nothing; it aborts exactly when the user folder exists and `Saved` throws; a completed collect is named after the time, saved as `Saved` says, and exports the list exactly when there was output and no folder stands at `extensions.txt` |
| ConfigSync.PreparedConfined | Source/Program.cs:47-52 | creating `Configs` and the snapshot folder adds only the way to the snapshot folder |
| ConfigSync.ExportConfined | Source/Program.cs:66-77 | exporting the extension list writes only inside the snapshot folder |
| ConfigSync.SavedParts | Source/Program.cs:47-77 | a completed collect found no file on the way to the snapshot folder, completed all three copies, and then exported |
| ConfigSync.SavedSettings | Source/Program.cs:54 | a completed collect leaves the user's `settings.json`, normalized, in the snapshot folder |
| ConfigSync.SavedKeybindings | Source/Program.cs:55 | a completed collect leaves the user's `keybindings.json`, normalized, in the snapshot folder |
| ConfigSync.SavedSnippets | Source/Program.cs:57-63 | a completed collect leaves every snippet file of the user, at any depth, at the same place below the snapshot's `snippets` |
| ConfigSync.SavedConfined | Source/Program.cs:47-77 | a completed collect changes nothing outside the snapshot folder, deletes nothing, and leaves the snapshot folder in place |
| ConfigSync.SavedSnippetsDir | Source/Program.cs:57-61 | a completed collect made while the user had a `snippets` folder leaves one in the snapshot folder |
| ConfigSync.NewSnapshotIsNewest | Source/Program.cs:101-103 | when `Configs` held only snapshots of earlier local times and only the new snapshot folder was added, the new name is the one and only name sync can select |
| ConfigSync.CollectedIsSelected | Source/Program.cs:50-103 | after a completed collect at a local time later than that of every snapshot already in `Configs`, the next sync selects that collect's snapshot and no other |
| ConfigSync.CollectThenRestoreSettings | Source/Program.cs:54-112 | restoring the snapshot a collect just made, when the restore completes, gives the user's `settings.json` back, normalized by each of the two copies |
| ConfigSync.CollectThenRestoreKeybindings | Source/Program.cs:55-113 | restoring the snapshot a collect just made, when the restore completes, gives the user's `keybindings.json` back, normalized by each of the two copies |
| ConfigSync.CollectThenRestoreSnippets | Source/Program.cs:57-121 | restoring the snapshot a collect just made, when the restore completes, puts every snippet file of the user back at its own path, passed twice through the copy's re-encoding |

## Left out

- `Source/InfoCheck.cs` and `Main` are not part of this model. They are the console menu and a process probe of `code --version`, and they hold no decision logic.
- Process execution (`RunCommandCaptureStdout`, `RunCommandNoCapture`, the shell launch in `CommandAvailable`) and `OpenDirectory` are left out. They start external processes. Their results come in as parameters or are ignored, as the source ignores them.
- Console output and progress messages are left out.
- `Text.Normalize`: models re-saving as UTF-8 as stripping one leading byte-order mark, not as real transcoding. Whether `File.ReadAllText` succeeds is the oracle `FileSystem.decodable`, because the .NET decoder is library behaviour.
- `File.ReadAllLines` is the parameter `readLines` from bytes to lines. Line splitting is not modelled.
- `Text.ToLowerInvariant`: lower-cases ASCII letters only. That is enough for the three extensions compared, but does not model the wider Unicode mapping of .NET.
- `Ordinal.Less`: compares Unicode code points, while .NET compares UTF-16 code units. The two differ only for characters outside the Basic Multilingual Plane, and snapshot names never contain those.
- `Snapshots.Latest`: compares the folder names, while the source compares the full paths `Directory.GetDirectories` returns. `Snapshots.LatestUnderCommonPrefix` shows that this makes no difference.
- `Snapshots.CollectThenSync`: "later" means a later local clock reading, the fields of `DateTime.Now`. When local time runs backwards (the repeated hour of a daylight-saving fall-back, a clock set back, a change of time zone), a collect made later in real time can get an ordinally smaller name, and sync then selects the older snapshot. Those cases are not covered.
- `Snapshots.Format`: `DateTime.ToString` is modelled with the invariant culture's Gregorian calendar and ASCII digits. Other cultures' calendars and digit shapes are left out.
- `Platforms.ProjectRoot`: works on segment paths, so the stripping of trailing separators by `TrimEnd` is not modelled. One consequence: for an executable directly in the filesystem root (`/` on Unix), `TrimEnd` leaves the empty string and `Directory.GetParent("")` throws, which ends the program; the model instead returns the root (`[]`) as the project root.
- `Platforms.InstallExtensionCommand`: `CommandAvailable("code")` is the single boolean `onPath`. The source probes again on every call, so two calls could in principle see different answers.
- `TreeCopy.CopyDirectory`: requires the source and target not to be nested (`!Nested(src, tgt)`), which excludes three cases the source handles differently. When the target lies inside the source, the source recurses into its own fresh copies until the path grows too long and .NET throws. When the source lies inside the target, the source copies finitely, and the mirror is then not a fixed tree to prove against. When they are the same folder, `File.Copy` onto the file itself throws. `ConfigSync.SyncConfig`, `ConfigSync.SyncLatest`, `ConfigSync.SaveSnapshot` and `ConfigSync.CollectConfig` require the same of the user folder and the `Configs` folder.
- `FileSystems.FileSystem`: only the exceptions of clashing names are modelled (a file where a folder is needed and the reverse, and a file copied onto itself). Permission errors, locked or read-only files, a full disk and other I/O errors are left out; the model's operations always succeed in those cases.
- `FileSystems.FileSystem`: paths are compared exactly, as on a case-sensitive filesystem. On the case-insensitive filesystems of Windows and macOS, two names that differ only in case are one file, so `TreeCopy.MirrorKeepsOthers` does not carry over to them.
- `ConfigSync.CollectConfig`: the round trip of a collect followed by a sync (`ConfigSync.CollectedIsSelected` and the three `ConfigSync.CollectThenRestore` lemmas) takes as a hypothesis that the restore completes. Whether it does depends on the oracle `FileSystem.decodable` accepting the normalized bytes the collect wrote and, for snippets, on the restore's mirror having no clash; neither is proved.
- `Extensions.InstallAll`: the outcome of each install process is not modelled. The source only reports a failed install and carries on, so the commands issued do not depend on it.
