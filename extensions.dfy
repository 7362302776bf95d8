/**
 * The extension list of a snapshot (Source/Program.cs). Collect saves the
 * output of `code --list-extensions` as `extensions.txt`; sync reads it back
 * line by line, trims every line, skips the blank ones and issues one
 * `--install-extension <id> --force` command per remaining line, in file
 * order. An install that fails is reported and the loop goes on.
 */
module Extensions {
  import opened Text
  import opened Platforms

  /** What a surviving line looks like: not empty, no white space at either end. */
  predicate IsTrimmedId(x: string) {
    x != [] && !IsWhiteSpace(x[0]) && !IsWhiteSpace(x[|x| - 1])
  }

  /** `lines.Select(e => e.Trim())`: every line trimmed, none dropped, the order kept. */
  function TrimAll(lines: seq<string>): (r: seq<string>)
    ensures |r| == |lines|
    ensures forall i :: 0 <= i < |lines| ==> r[i] == Trim(lines[i])
  {
    if lines == [] then [] else [Trim(lines[0])] + TrimAll(lines[1..])
  }

  /** `.Where(e => !string.IsNullOrWhiteSpace(e))`: the entries that are not all white space, in order. */
  function DropBlank(xs: seq<string>): (r: seq<string>)
    ensures |r| <= |xs|
  {
    if xs == [] then [] else (if IsBlank(xs[0]) then [] else [xs[0]]) + DropBlank(xs[1..])
  }

  /** The filter keeps exactly the entries that are not blank. */
  lemma {:induction false} DropBlankMembership(xs: seq<string>, x: string)
    ensures x in DropBlank(xs) <==> x in xs && !IsBlank(x)
  {
    if xs != [] {
      DropBlankMembership(xs[1..], x);
      assert xs == [xs[0]] + xs[1..];
    }
  }

  /** The filter goes entry by entry: the parts of a list are filtered one after the other. */
  lemma {:induction false} DropBlankAppend(a: seq<string>, b: seq<string>)
    ensures DropBlank(a + b) == DropBlank(a) + DropBlank(b)
  {
    if a != [] {
      assert (a + b)[0] == a[0];
      assert (a + b)[1..] == a[1..] + b;
      DropBlankAppend(a[1..], b);
      var h := if IsBlank(a[0]) then [] else [a[0]];
      assert h + (DropBlank(a[1..]) + DropBlank(b)) == (h + DropBlank(a[1..])) + DropBlank(b);
    } else {
      assert a + b == b;
    }
  }

  /** A list with no blank entry passes the filter unchanged. */
  lemma {:induction false} DropBlankKeepsIds(xs: seq<string>)
    requires forall i :: 0 <= i < |xs| ==> IsTrimmedId(xs[i])
    ensures DropBlank(xs) == xs
  {
    if xs != [] {
      assert !IsBlank(xs[0]) by {
        assert !IsWhiteSpace(xs[0][0]);
      }
      DropBlankKeepsIds(xs[1..]);
      assert xs == [xs[0]] + xs[1..];
    }
  }

  /** The ids of the extension file: the trimmed lines that are not blank. */
  function ExtensionIds(lines: seq<string>): (r: seq<string>)
    ensures |r| <= |lines|
  {
    DropBlank(TrimAll(lines))
  }

  /** An id comes from a line of the file that is not blank, and every such line gives its trimmed text as an id. */
  lemma IdsAreNonBlankLines(lines: seq<string>, x: string)
    ensures x in ExtensionIds(lines) <==> exists i :: 0 <= i < |lines| && !IsBlank(lines[i]) && Trim(lines[i]) == x
  {
    var t := TrimAll(lines);
    DropBlankMembership(t, x);
    forall i | 0 <= i < |lines| {
      TrimBlank(lines[i]);
    }
    if x in ExtensionIds(lines) {
      var i :| 0 <= i < |t| && t[i] == x;
      assert !IsBlank(lines[i]) && Trim(lines[i]) == x;
    }
  }

  /** Every id is a non-empty string with no white space at either end. */
  lemma IdsAreTrimmed(lines: seq<string>)
    ensures forall i :: 0 <= i < |ExtensionIds(lines)| ==> IsTrimmedId(ExtensionIds(lines)[i])
  {
    var r := ExtensionIds(lines);
    forall i | 0 <= i < |r|
      ensures IsTrimmedId(r[i])
    {
      IdsAreNonBlankLines(lines, r[i]);
      var j :| 0 <= j < |lines| && !IsBlank(lines[j]) && Trim(lines[j]) == r[i];
      TrimBlank(lines[j]);
    }
  }

  /** The file is read line by line: the ids of two parts of a file follow one another. */
  lemma ExtensionIdsAppend(a: seq<string>, b: seq<string>)
    ensures ExtensionIds(a + b) == ExtensionIds(a) + ExtensionIds(b)
  {
    TrimAllAppend(a, b);
    DropBlankAppend(TrimAll(a), TrimAll(b));
  }

  lemma {:induction false} TrimAllAppend(a: seq<string>, b: seq<string>)
    ensures TrimAll(a + b) == TrimAll(a) + TrimAll(b)
  {
    if a == [] {
      assert a + b == b;
    } else {
      assert (a + b)[0] == a[0];
      assert (a + b)[1..] == a[1..] + b;
      TrimAllAppend(a[1..], b);
      var h := [Trim(a[0])];
      assert h + (TrimAll(a[1..]) + TrimAll(b)) == (h + TrimAll(a[1..])) + TrimAll(b);
    }
  }

  lemma TrimAllOne(line: string)
    ensures TrimAll([line]) == [Trim(line)]
  {
    assert [line][1..] == [];
  }

  lemma DropBlankOne(x: string)
    ensures DropBlank([x]) == if IsBlank(x) then [] else [x]
  {
    assert [x][1..] == [];
  }

  /** A list of ids, one per line, reads back as itself. */
  lemma AlreadyIds(xs: seq<string>)
    requires forall i :: 0 <= i < |xs| ==> IsTrimmedId(xs[i])
    ensures ExtensionIds(xs) == xs
  {
    forall i | 0 <= i < |xs|
      ensures Trim(xs[i]) == xs[i]
    {
      TrimOfTrimmed(xs[i]);
    }
    assert TrimAll(xs) == xs;
    DropBlankKeepsIds(xs);
  }

  /** Filtering the result again changes nothing: a saved list of ids reads back as itself. */
  lemma ExtensionIdsIdempotent(lines: seq<string>)
    ensures ExtensionIds(ExtensionIds(lines)) == ExtensionIds(lines)
  {
    IdsAreTrimmed(lines);
    AlreadyIds(ExtensionIds(lines));
  }

  /** A single line gives its trimmed text, or nothing when it is all white space. */
  lemma ExtensionIdsOfLine(line: string)
    ensures ExtensionIds([line]) == if IsBlank(line) then [] else [Trim(line)]
  {
    TrimAllOne(line);
    DropBlankOne(Trim(line));
    TrimBlank(line);
  }

  /** Lines that are all white space give no ids, however many there are. */
  lemma {:induction false} BlankLinesGiveNothing(lines: seq<string>)
    requires forall i :: 0 <= i < |lines| ==> IsBlank(lines[i])
    ensures ExtensionIds(lines) == []
  {
    if lines != [] {
      ExtensionIdsOfLine(lines[0]);
      BlankLinesGiveNothing(lines[1..]);
      ExtensionIdsAppend([lines[0]], lines[1..]);
      assert [lines[0]] + lines[1..] == lines;
    }
  }

  /** An id followed by blank lines gives that id alone. */
  lemma IdThenBlankLines(id: string, blanks: seq<string>)
    requires IsTrimmedId(id)
    requires forall i :: 0 <= i < |blanks| ==> IsBlank(blanks[i])
    ensures ExtensionIds([id] + blanks) == [id]
  {
    AlreadyIds([id]);
    BlankLinesGiveNothing(blanks);
    ExtensionIdsAppend([id], blanks);
  }

  /** The example of a file with one id, an empty line and a line of spaces: one install. */
  lemma OneIdAmongBlankLines()
    ensures ExtensionIds(["ms-python.python", "", "  "]) == ["ms-python.python"]
  {
    var id, spaces := "ms-python.python", "  ";
    assert IsTrimmedId(id) by {
      assert id[0] == 'm' && id[|id| - 1] == 'n';
    }
    var blanks := ["", spaces];
    assert IsBlank(spaces) by {
      assert spaces[0] == ' ' && spaces[1] == ' ';
    }
    assert forall i :: 0 <= i < |blanks| ==> IsBlank(blanks[i]);
    IdThenBlankLines(id, blanks);
    assert [id] + blanks == ["ms-python.python", "", "  "];
  }

  /** One install command per id, in the order of the ids, each behind the same launcher. */
  function InstallCommands(launcher: string, ids: seq<string>): (r: seq<string>)
    ensures |r| == |ids|
    ensures forall i :: 0 <= i < |ids| ==> r[i] == launcher + InstallArguments(ids[i])
  {
    if ids == [] then [] else [launcher + InstallArguments(ids[0])] + InstallCommands(launcher, ids[1..])
  }

  /**
   * The install loop of `SyncConfig`: one command per id of the file, in
   * order, behind the launcher the ladder picks.
   */
  method InstallAll(os: Os, onPath: bool, existing: set<string>, lines: seq<string>) returns (issued: seq<string>)
    ensures issued == InstallCommands(Invocation(ResolveCli(os, onPath, existing)), ExtensionIds(lines))
  {
    var ids := ExtensionIds(lines);
    issued := InstallEach(os, onPath, existing, ids);
  }

  /**
   * The `foreach` over the ids: each command is built by
   * `InstallExtensionCommand`. The process outcome is not an input because a
   * failed install is only reported and the loop carries on regardless.
   */
  method InstallEach(os: Os, onPath: bool, existing: set<string>, ids: seq<string>) returns (issued: seq<string>)
    ensures issued == InstallCommands(Invocation(ResolveCli(os, onPath, existing)), ids)
  {
    ghost var launcher := Invocation(ResolveCli(os, onPath, existing));
    issued := [];
    for k := 0 to |ids|
      invariant |issued| == k
      invariant forall i :: 0 <= i < k ==> issued[i] == launcher + InstallArguments(ids[i])
    {
      var command := InstallExtensionCommand(os, onPath, existing, ids[k]);
      issued := issued + [command];
    }
  }
}
