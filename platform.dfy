/**
 * The per-platform choices of `Program` (Source/Program.cs): where VS Code
 * keeps its user settings, which shell runs a command line and how the
 * command is handed to it, and where the `code` launcher is looked for. The
 * operating system, the special folders, what the `command -v code` probe
 * answered and which files exist are the environment's and come in as
 * parameters.
 */
module Platforms {
  import opened Paths
  import opened Text

  datatype Os = Windows | MacOS | Linux

  /** What `Environment.GetFolderPath` reports for `ApplicationData` and `Personal`. */
  datatype Folders = Folders(appData: Path, home: Path)

  /** The folder VS Code keeps its user settings in: the application-data folder on Windows, the home folder elsewhere. */
  function UserDir(os: Os, folders: Folders): (r: Path)
    ensures |r| >= 2 && r[|r| - 2..] == ["Code", "User"]
    ensures IsStrictPrefix(if os == Windows then folders.appData else folders.home, r)
    ensures os == Windows ==> |r| == |folders.appData| + 2
  {
    match os
    case Windows => folders.appData + ["Code", "User"]
    case MacOS => folders.home + ["Library", "Application Support", "Code", "User"]
    case Linux => folders.home + [".config", "Code", "User"]
  }

  /** With one home folder, the macOS and the Linux locations lie apart: neither is inside the other. */
  lemma UserDirsApart(folders: Folders)
    ensures !Nested(UserDir(MacOS, folders), UserDir(Linux, folders))
  {
    var h := folders.home;
    var m := UserDir(MacOS, folders);
    var l := UserDir(Linux, folders);
    assert m[|h|] == "Library" && l[|h|] == ".config" && |l| < |m|;
  }

  /** The program that runs a command line: `cmd.exe` on Windows, a POSIX shell elsewhere (zsh on macOS). */
  function ShellCommand(os: Os): (r: string)
    ensures os == Windows <==> r == "cmd.exe"
    ensures os != Windows ==> |r| > 5 && r[..5] == "/bin/"
  {
    match os
    case Windows => "cmd.exe"
    case MacOS => "/bin/zsh"
    case Linux => "/bin/bash"
  }

  /**
   * The arguments that make the shell run `command`: `cmd.exe` gets `/c`
   * and the command as it is; a POSIX shell gets `-c` and the command in
   * double quotes, each double quote inside it escaped by a backslash, so
   * that a quote inside the command cannot end the quoted argument.
   */
  function ShellArguments(os: Os, command: string): (r: string)
    ensures os == Windows ==> |r| == |command| + 3 && r[..3] == "/c " && r[3..] == command
    ensures os != Windows ==>
      && |r| >= 5 && r[..4] == "-c \"" && r[|r| - 1] == '"'
      && UnescapeQuotes(r[4..|r| - 1]) == command
      && (forall i :: 4 <= i < |r| - 1 && r[i] == '"' ==> r[i - 1] == '\\')
  {
    if os == Windows then
      "/c " + command
    else
      var body := EscapeQuotes(command);
      var r := "-c \"" + body + "\"";
      EscapeRoundTrip(command);
      assert r[4..|r| - 1] == body;
      r
  }

  /** A command without double quotes reaches the POSIX shell verbatim between the quotes. */
  lemma ShellArgumentsWithoutQuotes(os: Os, command: string)
    requires os != Windows
    requires forall i :: 0 <= i < |command| ==> command[i] != '"'
    ensures ShellArguments(os, command) == "-c \"" + command + "\""
  {
    EscapeWithoutQuotes(command);
  }

  // ---------------------------------------------------------------------
  // Finding the VS Code command-line launcher
  // ---------------------------------------------------------------------

  /** The launcher: the bare command `code`, found through PATH, or an installed file called by its full path. */
  datatype Cli = OnPath | Installed(file: string)

  /** The launcher inside the application bundle. */
  const AppBundleCli: string := "/Applications/Visual Studio Code.app/Contents/Resources/app/bin/code"
  /** Homebrew's link on Apple silicon. */
  const HomebrewArmCli: string := "/opt/homebrew/bin/code"
  /** Homebrew's link on Intel Macs. */
  const HomebrewCli: string := "/usr/local/bin/code"

  /** The order in which the launcher is looked for: only macOS looks beyond PATH. */
  function Ladder(os: Os): seq<Cli> {
    if os == MacOS then [OnPath, Installed(AppBundleCli), Installed(HomebrewArmCli), Installed(HomebrewCli)] else []
  }

  /** Whether a candidate is there: PATH has `code`, or the file exists. */
  predicate Available(c: Cli, onPath: bool, existing: set<string>) {
    match c
    case OnPath => onPath
    case Installed(f) => f in existing
  }

  /** The first available candidate, and the bare `code` when there is none. */
  function FirstAvailable(candidates: seq<Cli>, onPath: bool, existing: set<string>): (r: Cli)
    ensures r == OnPath || r in candidates
    ensures r != OnPath ==> Available(r, onPath, existing)
    ensures (forall j :: 0 <= j < |candidates| ==> !Available(candidates[j], onPath, existing)) ==> r == OnPath
    ensures (exists j :: 0 <= j < |candidates| && Available(candidates[j], onPath, existing)) ==>
      r in candidates && Available(r, onPath, existing)
  {
    if candidates == [] then OnPath
    else if Available(candidates[0], onPath, existing) then candidates[0]
    else FirstAvailable(candidates[1..], onPath, existing)
  }

  /** The earliest available candidate wins: every candidate before the chosen one is missing. */
  lemma {:induction false} FirstAvailableIsFirst(candidates: seq<Cli>, onPath: bool, existing: set<string>, k: nat)
    requires k < |candidates| && candidates[k] == FirstAvailable(candidates, onPath, existing)
    requires forall i, j :: 0 <= i < j < |candidates| ==> candidates[i] != candidates[j]
    ensures forall j :: 0 <= j < k ==> !Available(candidates[j], onPath, existing)
  {
    if k > 0 {
      var rest := candidates[1..];
      assert candidates[0] != candidates[k];
      assert !Available(candidates[0], onPath, existing);
      assert rest[k - 1] == candidates[k];
      FirstAvailableIsFirst(rest, onPath, existing, k - 1);
      forall j | 1 <= j < k
        ensures !Available(candidates[j], onPath, existing)
      {
        assert candidates[j] == rest[j - 1];
      }
    }
  }

  /** The launcher both command builders use. */
  function ResolveCli(os: Os, onPath: bool, existing: set<string>): Cli {
    FirstAvailable(Ladder(os), onPath, existing)
  }

  /**
   * The ladder spelled out: outside macOS always the bare `code`; on macOS
   * PATH first, then the application bundle, then Homebrew on Apple silicon,
   * then Homebrew on Intel, and the bare `code` when none is there.
   */
  lemma LadderOrder(os: Os, onPath: bool, existing: set<string>)
    ensures os != MacOS ==> ResolveCli(os, onPath, existing) == OnPath
    ensures os == MacOS && onPath ==> ResolveCli(os, onPath, existing) == OnPath
    ensures os == MacOS && !onPath && AppBundleCli in existing
      ==> ResolveCli(os, onPath, existing) == Installed(AppBundleCli)
    ensures os == MacOS && !onPath && AppBundleCli !in existing && HomebrewArmCli in existing
      ==> ResolveCli(os, onPath, existing) == Installed(HomebrewArmCli)
    ensures os == MacOS && !onPath && AppBundleCli !in existing && HomebrewArmCli !in existing && HomebrewCli in existing
      ==> ResolveCli(os, onPath, existing) == Installed(HomebrewCli)
    ensures os == MacOS && !onPath && AppBundleCli !in existing && HomebrewArmCli !in existing && HomebrewCli !in existing
      ==> ResolveCli(os, onPath, existing) == OnPath
  {
    if os == MacOS {
      var l0 := Ladder(os);
      var l1 := [Installed(AppBundleCli), Installed(HomebrewArmCli), Installed(HomebrewCli)];
      var l2 := [Installed(HomebrewArmCli), Installed(HomebrewCli)];
      var l3 := [Installed(HomebrewCli)];
      assert l0[1..] == l1 && l1[1..] == l2 && l2[1..] == l3 && l3[1..] == [];
      assert FirstAvailable(l0, onPath, existing) == if onPath then OnPath else FirstAvailable(l1, onPath, existing);
      assert FirstAvailable(l1, onPath, existing)
          == if AppBundleCli in existing then Installed(AppBundleCli) else FirstAvailable(l2, onPath, existing);
      assert FirstAvailable(l2, onPath, existing)
          == if HomebrewArmCli in existing then Installed(HomebrewArmCli) else FirstAvailable(l3, onPath, existing);
      assert FirstAvailable(l3, onPath, existing)
          == if HomebrewCli in existing then Installed(HomebrewCli) else FirstAvailable([], onPath, existing);
    }
  }

  /** How the launcher is written at the head of a command line. */
  function Invocation(c: Cli): string {
    match c
    case OnPath => "code"
    case Installed(f) => "\"" + f + "\""
  }

  /** What follows the launcher when listing the installed extensions. */
  const ListArguments: string := " --list-extensions"

  /** What follows the launcher when installing `ext`, replacing an installed copy. */
  function InstallArguments(ext: string): string {
    " --install-extension " + ext + " --force"
  }

  /** `GetVSCodeListExtensionsCommand`, branch by branch, given the probe's answer and the files that exist. */
  function ListExtensionsCommand(os: Os, onPath: bool, existing: set<string>): (r: string)
    ensures r == Invocation(ResolveCli(os, onPath, existing)) + ListArguments
  {
    LadderOrder(os, onPath, existing);
    var args := ListArguments;
    if os == MacOS then
      if onPath then "code" + args
      else if AppBundleCli in existing then "\"" + AppBundleCli + "\"" + args
      else if HomebrewArmCli in existing then "\"" + HomebrewArmCli + "\"" + args
      else if HomebrewCli in existing then "\"" + HomebrewCli + "\"" + args
      else "code" + args
    else "code" + args
  }

  /** `GetVSCodeInstallExtensionCommand(ext)`, branch by branch. */
  function InstallExtensionCommand(os: Os, onPath: bool, existing: set<string>, ext: string): (r: string)
    ensures r == Invocation(ResolveCli(os, onPath, existing)) + InstallArguments(ext)
  {
    LadderOrder(os, onPath, existing);
    var args := InstallArguments(ext);
    if os == MacOS then
      if onPath then "code" + args
      else if AppBundleCli in existing then "\"" + AppBundleCli + "\"" + args
      else if HomebrewArmCli in existing then "\"" + HomebrewArmCli + "\"" + args
      else if HomebrewCli in existing then "\"" + HomebrewCli + "\"" + args
      else "code" + args
    else "code" + args
  }

  /** The two builders, which repeat the ladder, put the same launcher in front of their arguments. */
  lemma SameLauncher(os: Os, onPath: bool, existing: set<string>, ext: string)
    ensures var launcher := Invocation(ResolveCli(os, onPath, existing));
      && ListExtensionsCommand(os, onPath, existing)[..|launcher|] == launcher
      && InstallExtensionCommand(os, onPath, existing, ext)[..|launcher|] == launcher
  {
    var launcher := Invocation(ResolveCli(os, onPath, existing));
    assert (launcher + ListArguments)[..|launcher|] == launcher;
    assert (launcher + InstallArguments(ext))[..|launcher|] == launcher;
  }

  /** The command line `CommandAvailable(cmd)` runs. */
  function ProbeCommand(cmd: string): string {
    "command -v " + cmd + " >/dev/null 2>&1 && echo OK || echo NO"
  }

  /** How `CommandAvailable` reads the probe's output: `OK` at its end, once trimmed. */
  predicate ProbeSaysAvailable(output: string) {
    var t := Trim(output);
    |t| >= 2 && t[|t| - 2..] == "OK"
  }

  /** What running the probe gave: its standard output, or an exception starting the shell. */
  datatype ProbeResult = Printed(output: string) | Failed

  /**
   * `CommandAvailable`: the probe printed `OK` at the end; an exception is
   * caught and reads as missing. Its answer is the `onPath` the ladder takes.
   */
  predicate CommandAvailable(probe: ProbeResult) {
    probe.Printed? && ProbeSaysAvailable(probe.output)
  }

  /** The answer the probe prints when `code` is found, a line break after it, reads as found. */
  lemma ProbeSeesOk()
    ensures ProbeSaysAvailable("OK\n")
  {
    var s := "OK\n";
    assert !IsWhiteSpace(s[0]);
    assert TrimStart(s) == s;
    assert IsWhiteSpace(s[2]) && s[..2] == "OK";
    assert !IsWhiteSpace("OK"[1]);
    assert TrimEnd("OK") == "OK";
    assert Trim(s) == "OK";
  }

  /** The answer the probe prints when `code` is missing, a line break after it, reads as missing. */
  lemma ProbeSeesNo()
    ensures !ProbeSaysAvailable("NO\n")
  {
    var s := "NO\n";
    assert !IsWhiteSpace(s[0]);
    assert TrimStart(s) == s;
    assert IsWhiteSpace(s[2]) && s[..2] == "NO";
    assert !IsWhiteSpace("NO"[1]);
    assert TrimEnd("NO") == "NO";
    assert Trim(s) == "NO";
  }

  /** On macOS a probe that prints `OK` makes both builders use the bare `code`. */
  lemma ProbeOkUsesPath(existing: set<string>)
    ensures ResolveCli(MacOS, CommandAvailable(Printed("OK\n")), existing) == OnPath
  {
    ProbeSeesOk();
    LadderOrder(MacOS, true, existing);
  }

  /**
   * On macOS a probe that prints `NO`, or one that throws, sends the ladder on
   * to the application bundle when it is installed.
   */
  lemma ProbeMissFallsBack(existing: set<string>)
    requires AppBundleCli in existing
    ensures ResolveCli(MacOS, CommandAvailable(Printed("NO\n")), existing) == Installed(AppBundleCli)
    ensures ResolveCli(MacOS, CommandAvailable(Failed), existing) == Installed(AppBundleCli)
  {
    ProbeSeesNo();
    LadderOrder(MacOS, false, existing);
  }

  /**
   * `GetProjectRoot`: the parent of the folder holding the executable, so
   * that a tool kept in `<root>/Tools` works on `<root>`; the folder itself
   * when it has no parent.
   */
  function ProjectRoot(baseDir: Path): (r: Path)
    ensures IsPrefix(r, baseDir)
    ensures baseDir != [] ==> |r| == |baseDir| - 1
  {
    if baseDir == [] then baseDir else Parent(baseDir)
  }

  lemma ToolsFolderRoot(root: Path)
    ensures ProjectRoot(root + ["Tools"]) == root
  {
    assert (root + ["Tools"])[..|root|] == root;
  }
}
