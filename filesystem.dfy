/**
 * The filesystem the tool reads and writes: file contents by path and the
 * set of directories, with the four `System.IO` operations the copy code
 * calls. The exceptions modelled are those a clash of names raises (a file
 * where a directory is needed or the reverse, a file copied onto itself);
 * such an operation reports `false` and leaves the state as the exception
 * would.
 */
module FileSystems {
  import opened Paths
  import opened Text

  /** A value snapshot of the filesystem. */
  datatype Tree = Tree(files: map<Path, Bytes>, dirs: set<Path>)

  /**
   * What every real filesystem satisfies: the root is a directory, every
   * directory and file other than the root sits in a directory, and no path
   * is both a file and a directory.
   */
  ghost predicate WellFormed(t: Tree) {
    && [] in t.dirs
    && (forall d {:trigger Parent(d)} :: d in t.dirs && d != [] ==> Parent(d) in t.dirs)
    && (forall f :: f in t.files ==> f != [] && Parent(f) in t.dirs)
    && (forall f :: f in t.files ==> f !in t.dirs)
  }

  /** Every ancestor of a directory is a directory. */
  lemma {:induction false} AncestorsOfDir(t: Tree, d: Path, a: Path)
    requires WellFormed(t) && d in t.dirs && IsPrefix(a, d)
    ensures a in t.dirs
    decreases |d|
  {
    if a != d {
      var p := Parent(d);
      assert p in t.dirs;
      assert IsPrefix(a, p) by {
        assert p[..|a|] == d[..|a|];
      }
      AncestorsOfDir(t, p, a);
    }
  }

  /** Every proper ancestor of a file is a directory. */
  lemma AncestorsOfFile(t: Tree, f: Path, a: Path)
    requires WellFormed(t) && f in t.files && IsStrictPrefix(a, f)
    ensures a in t.dirs
  {
    var p := Parent(f);
    assert IsPrefix(a, p) by {
      assert p[..|a|] == f[..|a|];
    }
    AncestorsOfDir(t, p, a);
  }

  /** No ancestor of `d` (nor `d` itself) is a file. */
  predicate NoFileOnPath(t: Tree, d: Path) {
    forall i :: 0 <= i <= |d| ==> d[..i] !in t.files
  }

  /** `Directory.CreateDirectory(d)` when it succeeds: `d` and all its ancestors exist. */
  function WithDirectory(t: Tree, d: Path): (r: Tree)
    ensures r.files == t.files && r.dirs == t.dirs + Prefixes(d)
  {
    Tree(t.files, t.dirs + Prefixes(d))
  }

  lemma WithDirectoryWellFormed(t: Tree, d: Path)
    requires WellFormed(t) && NoFileOnPath(t, d)
    ensures WellFormed(WithDirectory(t, d))
  {
    var r := WithDirectory(t, d);
    forall q | q in r.dirs && q != []
      ensures Parent(q) in r.dirs
    {
      if q in Prefixes(d) {
        PrefixTransitive(Parent(q), q, d);
      }
    }
  }

  /** The names of the files directly inside `dir`: `Directory.GetFiles`. */
  function FileNamesIn(t: Tree, dir: Path): (r: set<string>)
    ensures forall n :: n in r <==> dir + [n] in t.files
  {
    var r := set p | p in t.files && |p| == |dir| + 1 && p[..|dir|] == dir :: p[|dir|];
    assert forall n :: dir + [n] in t.files ==> n == (dir + [n])[|dir|] && (dir + [n])[..|dir|] == dir;
    assert forall p :: |p| == |dir| + 1 && p[..|dir|] == dir ==> p == dir + [p[|dir|]];
    r
  }

  /** The names of the directories directly inside `dir`: `Directory.GetDirectories`. */
  function SubdirNamesIn(t: Tree, dir: Path): (r: set<string>)
    ensures forall n :: n in r <==> dir + [n] in t.dirs
  {
    var r := set p | p in t.dirs && |p| == |dir| + 1 && p[..|dir|] == dir :: p[|dir|];
    assert forall n :: dir + [n] in t.dirs ==> n == (dir + [n])[|dir|] && (dir + [n])[..|dir|] == dir;
    assert forall p :: |p| == |dir| + 1 && p[..|dir|] == dir ==> p == dir + [p[|dir|]];
    r
  }

  /** The names in a listing. */
  ghost function Names(listing: seq<string>): set<string> {
    set x | x in listing
  }

  lemma NamesAppend(listing: seq<string>, n: string)
    ensures Names(listing + [n]) == Names(listing) + {n}
  {
    assert forall x :: x in listing + [n] <==> x in listing || x == n;
  }

  /** The members of `s`, each once, in some order. */
  method Listing(s: set<string>) returns (names: seq<string>)
    ensures Names(names) == s
    ensures forall i, j :: 0 <= i < j < |names| ==> names[i] != names[j]
  {
    var todo := s;
    names := [];
    while todo != {}
      invariant todo <= s
      invariant Names(names) == s - todo
      invariant forall i, j :: 0 <= i < j < |names| ==> names[i] != names[j]
      decreases |todo|
    {
      var n :| n in todo;
      assert n !in Names(names);
      NamesAppend(names, n);
      names := names + [n];
      todo := todo - {n};
    }
  }

  class FileSystem {
    var files: map<Path, Bytes>
    var dirs: set<Path>
    /**
     * Whether reading these bytes back as UTF-8 text succeeds. The .NET
     * decoder decides this; the model takes it from its environment.
     */
    const decodable: Bytes -> bool

    function State(): Tree
      reads this
    {
      Tree(files, dirs)
    }

    ghost predicate Valid()
      reads this
    {
      WellFormed(State())
    }

    constructor (t: Tree, decodable: Bytes -> bool)
      requires WellFormed(t)
      ensures Valid() && State() == t && this.decodable == decodable
    {
      files := t.files;
      dirs := t.dirs;
      this.decodable := decodable;
    }

    /**
     * `Directory.GetFiles(dir)`, as names: each file directly in `dir` once,
     * in an order the filesystem chooses.
     */
    method ListFiles(dir: Path) returns (names: seq<string>)
      ensures Names(names) == FileNamesIn(State(), dir)
      ensures forall i, j :: 0 <= i < j < |names| ==> names[i] != names[j]
    {
      names := Listing(FileNamesIn(State(), dir));
    }

    /** `Directory.GetDirectories(dir)`, as names, in an order the filesystem chooses. */
    method ListSubdirs(dir: Path) returns (names: seq<string>)
      ensures Names(names) == SubdirNamesIn(State(), dir)
      ensures forall i, j :: 0 <= i < j < |names| ==> names[i] != names[j]
    {
      names := Listing(SubdirNamesIn(State(), dir));
    }

    /**
     * `Directory.CreateDirectory(d)`: creates `d` and every missing
     * ancestor; it throws, changing nothing, when one of them is a file.
     */
    method CreateDirectory(d: Path) returns (ok: bool)
      requires Valid()
      modifies this
      ensures Valid()
      ensures ok <==> NoFileOnPath(old(State()), d)
      ensures State() == if ok then WithDirectory(old(State()), d) else old(State())
    {
      ok := forall i :: 0 <= i <= |d| ==> d[..i] !in files;
      if ok {
        WithDirectoryWellFormed(State(), d);
        dirs := dirs + Prefixes(d);
      }
    }

    /**
     * `File.Copy(from, to, overwrite: true)` into an existing directory; it
     * throws, changing nothing, when `to` is a directory or is `from` itself.
     */
    method CopyFile(from: Path, to: Path) returns (ok: bool)
      requires Valid() && from in files && to != [] && Parent(to) in dirs
      modifies this
      ensures Valid()
      ensures ok <==> to !in old(dirs) && to != from
      ensures dirs == old(dirs)
      ensures files == if ok then old(files)[to := old(files)[from]] else old(files)
    {
      ok := to !in dirs && to != from;
      if ok {
        files := files[to := files[from]];
      }
    }

    /**
     * `File.WriteAllText(p, ...)` of already encoded bytes; it throws,
     * changing nothing, when `p` is a directory.
     */
    method WriteFile(p: Path, contents: Bytes) returns (ok: bool)
      requires Valid() && p != [] && Parent(p) in dirs
      modifies this
      ensures Valid()
      ensures ok <==> p !in old(dirs)
      ensures dirs == old(dirs)
      ensures files == if ok then old(files)[p := contents] else old(files)
    {
      ok := p !in dirs;
      if ok {
        files := files[p := contents];
      }
    }

    /**
     * `File.ReadAllText(p, UTF8)` followed by `File.WriteAllText(p, text,
     * new UTF8Encoding(false))`: the file is rewritten without its mark,
     * unless reading it throws, which changes nothing.
     */
    method Reencode(p: Path) returns (ok: bool)
      requires Valid() && p in files
      modifies this
      ensures Valid()
      ensures ok <==> decodable(old(files)[p])
      ensures dirs == old(dirs)
      ensures files == if ok then old(files)[p := Normalize(old(files)[p])] else old(files)
    {
      ok := decodable(files[p]);
      if ok {
        files := files[p := Normalize(files[p])];
      }
    }
  }
}
