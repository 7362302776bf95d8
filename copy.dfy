/**
 * `CopyIfExists` and `CopyDirectory` (Source/Program.cs): copying one file,
 * and mirroring a source subtree into a target directory, each followed by
 * re-saving the copies as UTF-8 without a byte-order mark.
 */
module TreeCopy {
  import opened Paths
  import opened Text
  import opened FileSystems

  /**
   * Whether an operation ran to its end or stopped with an exception that it
   * does not catch (the caller then stops too).
   */
  datatype Outcome = Completed | Threw

  /** The extensions `CopyDirectory` re-encodes. */
  const TextExtensions: set<string> := {".json", ".code-snippets", ".txt"}

  predicate IsTextFile(name: string) {
    ToLowerInvariant(Extension(name)) in TextExtensions
  }

  /** The extension of `stem.ext` is `.ext` when `ext` holds no dot. */
  lemma ExtensionOfName(stem: string, ext: string)
    requires ext != [] && forall i :: 0 <= i < |ext| ==> ext[i] != '.'
    ensures Extension(stem + "." + ext) == "." + ext
  {
    var name := stem + "." + ext;
    ExtensionShape(name);
    assert name[|stem|] == '.';
    assert forall i :: |stem| < i < |name| ==> name[i] == ext[i - |stem| - 1];
    assert name[|stem|..] == "." + ext;
  }

  /** Whether a name is a text file depends only on what follows its last dot. */
  lemma IsTextFileOfName(stem: string, ext: string)
    requires ext != [] && forall i :: 0 <= i < |ext| ==> ext[i] != '.'
    ensures IsTextFile(stem + "." + ext) <==> ToLowerInvariant("." + ext) in TextExtensions
  {
    ExtensionOfName(stem, ext);
  }

  /** A name without a dot, or ending in one, has no extension and is never re-encoded. */
  lemma NoExtensionNotText(name: string)
    requires (forall i :: 0 <= i < |name| ==> name[i] != '.') || (name != [] && name[|name| - 1] == '.')
    ensures !IsTextFile(name)
  {
    ExtensionShape(name);
    assert ToLowerInvariant([]) == [];
  }

  // ---------------------------------------------------------------------
  // CopyIfExists
  // ---------------------------------------------------------------------

  /**
   * The effect of `CopyIfExists(sourceFile, targetDir)` on the filesystem:
   * nothing when the source file is absent; otherwise the target directory
   * is created, the file copied into it under its own name and rewritten
   * without its byte-order mark. None of the three steps catches its
   * exception; the copy throws when the target directory is the folder the
   * file is in, since the file would be copied onto itself.
   */
  function CopyIfExistsEffect(t: Tree, decodable: Bytes -> bool, sourceFile: Path, targetDir: Path): (r: (Outcome, Tree))
    requires sourceFile != []
    ensures sourceFile !in t.files ==> r == (Completed, t)
    ensures
      var dest := targetDir + [FileName(sourceFile)];
      r.0 == Completed && sourceFile in t.files ==>
        && targetDir in r.1.dirs
        && dest in r.1.files
        && r.1.files[dest] == Normalize(t.files[sourceFile])
    ensures
      var dest := targetDir + [FileName(sourceFile)];
      r.0 == Completed <==>
        sourceFile !in t.files
        || (NoFileOnPath(t, targetDir) && dest !in t.dirs && dest != sourceFile && decodable(t.files[sourceFile]))
    ensures
      var dest := targetDir + [FileName(sourceFile)];
      forall p :: p != dest ==> (p in r.1.files <==> p in t.files) && (p in t.files ==> r.1.files[p] == t.files[p])
    ensures r.1.dirs == t.dirs || r.1.dirs == t.dirs + Prefixes(targetDir)
  {
    var dest := targetDir + [FileName(sourceFile)];
    assert dest !in Prefixes(targetDir);
    if sourceFile !in t.files then (Completed, t)
    else if !NoFileOnPath(t, targetDir) then (Threw, t)
    else
      var t1 := WithDirectory(t, targetDir);
      if dest in t1.dirs || dest == sourceFile then
        (Threw, t1)
      else
        var b := t.files[sourceFile];
        if decodable(b) then (Completed, Tree(t.files[dest := Normalize(b)], t1.dirs))
        else (Threw, Tree(t.files[dest := b], t1.dirs))
  }

  method CopyIfExists(fs: FileSystem, sourceFile: Path, targetDir: Path) returns (outcome: Outcome)
    requires fs.Valid() && sourceFile != []
    modifies fs
    ensures fs.Valid()
    ensures (outcome, fs.State()) == CopyIfExistsEffect(old(fs.State()), fs.decodable, sourceFile, targetDir)
  {
    if sourceFile !in fs.files {
      return Completed;
    }
    var ok := fs.CreateDirectory(targetDir);
    if !ok {
      return Threw;
    }
    var dest := targetDir + [FileName(sourceFile)];
    assert Parent(dest) == targetDir;
    ok := fs.CopyFile(sourceFile, dest);
    if !ok {
      return Threw;
    }
    ghost var copied := fs.files;
    assert copied == old(fs.files)[dest := old(fs.files)[sourceFile]];
    ok := fs.Reencode(dest);
    assert fs.files == if ok then old(fs.files)[dest := Normalize(old(fs.files)[sourceFile])] else copied;
    outcome := if ok then Completed else Threw;
  }

  // ---------------------------------------------------------------------
  // The mirror of a subtree
  // ---------------------------------------------------------------------

  /** What `CopyDirectory` leaves at the copy of a file named `name` holding `b`. */
  function CopiedContent(name: string, b: Bytes, decodable: Bytes -> bool): Bytes {
    if IsTextFile(name) && decodable(b) then Normalize(b) else b
  }

  ghost function SourceFiles(files: map<Path, Bytes>, src: Path): set<Path> {
    set p | p in files && IsStrictPrefix(src, p)
  }

  ghost function SourceDirs(dirs: set<Path>, src: Path): set<Path> {
    set p | p in dirs && IsStrictPrefix(src, p)
  }

  /** The paths the source paths `s` are copied to. */
  ghost function Image(src: Path, tgt: Path, s: set<Path>): set<Path> {
    set p | p in s && IsStrictPrefix(src, p) :: tgt + Rel(src, p)
  }

  /** `q` is the copy of one of the source paths `s`. */
  ghost predicate CopyOf(src: Path, tgt: Path, s: set<Path>, q: Path) {
    IsStrictPrefix(tgt, q) && src + Rel(tgt, q) in s
  }

  lemma ImageMembership(src: Path, tgt: Path, s: set<Path>)
    ensures forall q :: q in Image(src, tgt, s) <==> CopyOf(src, tgt, s, q)
  {
    forall q | q in Image(src, tgt, s)
      ensures CopyOf(src, tgt, s, q)
    {
      var p :| p in s && IsStrictPrefix(src, p) && q == tgt + Rel(src, p);
      PrefixOfConcat(tgt, Rel(src, p));
    }
    forall q | CopyOf(src, tgt, s, q)
      ensures q in Image(src, tgt, s)
    {
      var p := src + Rel(tgt, q);
      PrefixOfConcat(src, Rel(tgt, q));
    }
  }

  /** `files` with the copies of the source files `s` written into target. */
  ghost function Overlay(files: map<Path, Bytes>, src: Path, tgt: Path, decodable: Bytes -> bool, s: set<Path>): map<Path, Bytes>
    requires forall p :: p in s ==> p in files
  {
    ImageMembership(src, tgt, s);
    map q | q in files.Keys + Image(src, tgt, s) ::
      if CopyOf(src, tgt, s, q) then CopiedContent(FileName(q), files[src + Rel(tgt, q)], decodable) else files[q]
  }

  ghost function DirOverlay(dirs: set<Path>, src: Path, tgt: Path, s: set<Path>): set<Path> {
    dirs + Prefixes(tgt) + Image(src, tgt, s)
  }

  /**
   * The filesystem after `CopyDirectory(src, tgt)` has run to its end: the
   * target and its ancestors exist, every directory below `src` exists at the
   * same place below `tgt`, every file below `src` has been copied (and, where
   * `CopiedContent` says so, re-encoded) to the same place below `tgt`, and
   * everything else is as it was.
   */
  ghost function Mirror(t: Tree, src: Path, tgt: Path, decodable: Bytes -> bool): Tree {
    Tree(Overlay(t.files, src, tgt, decodable, SourceFiles(t.files, src)),
         DirOverlay(t.dirs, src, tgt, SourceDirs(t.dirs, src)))
  }

  ghost predicate ClashFree(t: Tree) {
    forall q :: q in t.files ==> q !in t.dirs
  }

  /**
   * `after` differs from `before` only inside `tgt`, and in directories
   * added on the way to `tgt`; nothing is deleted.
   */
  ghost predicate ConfinedTo(before: Tree, after: Tree, tgt: Path) {
    && (forall p :: p in before.files && !IsPrefix(tgt, p) ==> p in after.files && after.files[p] == before.files[p])
    && (forall p :: p in after.files && !IsPrefix(tgt, p) ==> p in before.files)
    && before.dirs <= after.dirs
    && (forall p :: p in after.dirs ==> p in before.dirs || IsPrefix(p, tgt) || IsPrefix(tgt, p))
  }

  // Properties of the mirror, one per promise of the copy.

  /** Every file below the source, at every depth, is copied to the same relative path below the target. */
  lemma MirrorCopiesEveryFile(t: Tree, src: Path, tgt: Path, decodable: Bytes -> bool, p: Path)
    requires p in t.files && IsStrictPrefix(src, p)
    ensures var q := tgt + Rel(src, p);
      q in Mirror(t, src, tgt, decodable).files
      && Mirror(t, src, tgt, decodable).files[q] == CopiedContent(FileName(p), t.files[p], decodable)
  {
    var q := tgt + Rel(src, p);
    var s := SourceFiles(t.files, src);
    PrefixOfConcat(tgt, Rel(src, p));
    ImageMembership(src, tgt, s);
    assert CopyOf(src, tgt, s, q);
  }

  /** Every directory below the source exists at the same relative path below the target; so does the target. */
  lemma MirrorCreatesEveryDirectory(t: Tree, src: Path, tgt: Path, decodable: Bytes -> bool, p: Path)
    requires p in t.dirs && IsPrefix(src, p)
    ensures tgt + Rel(src, p) in Mirror(t, src, tgt, decodable).dirs
  {
    if p == src {
      assert tgt + Rel(src, p) == tgt;
    } else {
      assert p in SourceDirs(t.dirs, src);
    }
  }

  /**
   * The copy overwrites and never deletes: every file and directory survives,
   * and a file that is not the copy of a source file keeps its contents.
   */
  lemma MirrorKeepsOthers(t: Tree, src: Path, tgt: Path, decodable: Bytes -> bool)
    ensures t.files.Keys <= Mirror(t, src, tgt, decodable).files.Keys
    ensures t.dirs <= Mirror(t, src, tgt, decodable).dirs
    ensures forall q :: q in t.files && !CopyOf(src, tgt, SourceFiles(t.files, src), q) ==>
      Mirror(t, src, tgt, decodable).files[q] == t.files[q]
  {
  }

  /** Nothing beyond the copies appears: every new file is the copy of a source file, every new directory an ancestor of the target or the copy of a source directory. */
  lemma MirrorAddsOnlyCopies(t: Tree, src: Path, tgt: Path, decodable: Bytes -> bool)
    ensures forall q :: q in Mirror(t, src, tgt, decodable).files ==>
      q in t.files || CopyOf(src, tgt, SourceFiles(t.files, src), q)
    ensures forall q :: q in Mirror(t, src, tgt, decodable).dirs ==>
      q in t.dirs || IsPrefix(q, tgt) || CopyOf(src, tgt, SourceDirs(t.dirs, src), q)
  {
    ImageMembership(src, tgt, SourceFiles(t.files, src));
    ImageMembership(src, tgt, SourceDirs(t.dirs, src));
  }

  /**
   * Re-encoding is applied exactly to the copies of `.json`, `.code-snippets`
   * and `.txt` files (in any letter case) that decode; every other copy is
   * byte for byte the source file, including a text file whose re-encoding
   * failed.
   */
  lemma MirrorReencodesExactlyText(t: Tree, src: Path, tgt: Path, decodable: Bytes -> bool, p: Path)
    requires p in t.files && IsStrictPrefix(src, p)
    ensures var q := tgt + Rel(src, p);
      var b := t.files[p];
      && q in Mirror(t, src, tgt, decodable).files
      && (IsTextFile(FileName(p)) && decodable(b) ==> Mirror(t, src, tgt, decodable).files[q] == Normalize(b))
      && (!IsTextFile(FileName(p)) || !decodable(b) ==> Mirror(t, src, tgt, decodable).files[q] == b)
  {
    MirrorCopiesEveryFile(t, src, tgt, decodable, p);
  }

  /** Outside the target nothing changes. */
  lemma MirrorConfined(t: Tree, src: Path, tgt: Path, decodable: Bytes -> bool)
    ensures ConfinedTo(t, Mirror(t, src, tgt, decodable), tgt)
  {
    var s := SourceFiles(t.files, src);
    ImageMembership(src, tgt, s);
    ImageMembership(src, tgt, SourceDirs(t.dirs, src));
  }

  // ---------------------------------------------------------------------
  // CopyDirectory
  // ---------------------------------------------------------------------

  /** The files directly inside `src` whose names are in `names`. */
  ghost function DirectFiles(files: map<Path, Bytes>, src: Path, names: set<string>): set<Path> {
    set p | p in files && IsStrictPrefix(src, p) && |p| == |src| + 1 && p[|src|] in names
  }

  /** The files directly inside `src`, and those at any depth inside its subdirectories `subs`. */
  ghost function SelectedFiles(files: map<Path, Bytes>, src: Path, subs: set<string>): set<Path> {
    set p | p in files && IsStrictPrefix(src, p) && (|p| == |src| + 1 || p[|src|] in subs)
  }

  /** The subdirectories `subs` of `src` and every directory inside them. */
  ghost function SelectedDirs(dirs: set<Path>, src: Path, subs: set<string>): set<Path> {
    set p | p in dirs && IsStrictPrefix(src, p) && p[|src|] in subs
  }

  /** A state `CopyDirectory` passes through: the files `s` copied and the directories `sd` created. */
  ghost function Partial(t: Tree, src: Path, tgt: Path, decodable: Bytes -> bool, s: set<Path>, sd: set<Path>): Tree
    requires forall p :: p in s ==> p in t.files
  {
    Tree(Overlay(t.files, src, tgt, decodable, s), DirOverlay(t.dirs, src, tgt, sd))
  }

  /** Every intermediate state lies within the mirror. */
  lemma PartialWithinMirror(t: Tree, src: Path, tgt: Path, decodable: Bytes -> bool, s: set<Path>, sd: set<Path>)
    requires s <= SourceFiles(t.files, src) && sd <= SourceDirs(t.dirs, src)
    ensures Partial(t, src, tgt, decodable, s, sd).files.Keys <= Mirror(t, src, tgt, decodable).files.Keys
    ensures Partial(t, src, tgt, decodable, s, sd).dirs <= Mirror(t, src, tgt, decodable).dirs
  {
    ImageMembership(src, tgt, s);
    ImageMembership(src, tgt, sd);
    ImageMembership(src, tgt, SourceFiles(t.files, src));
    ImageMembership(src, tgt, SourceDirs(t.dirs, src));
  }

  /** Every intermediate state differs from the original only inside the target. */
  lemma PartialConfined(t: Tree, src: Path, tgt: Path, decodable: Bytes -> bool, s: set<Path>, sd: set<Path>)
    requires s <= SourceFiles(t.files, src) && sd <= SourceDirs(t.dirs, src)
    ensures ConfinedTo(t, Partial(t, src, tgt, decodable, s, sd), tgt)
  {
    ImageMembership(src, tgt, s);
    ImageMembership(src, tgt, sd);
  }

  /** Every intermediate state leaves the source subtree as it was. */
  lemma PartialKeepsSource(t: Tree, src: Path, tgt: Path, decodable: Bytes -> bool, s: set<Path>, sd: set<Path>)
    requires !Nested(src, tgt)
    requires s <= SourceFiles(t.files, src) && sd <= SourceDirs(t.dirs, src)
    ensures var p := Partial(t, src, tgt, decodable, s, sd);
      forall q :: IsPrefix(src, q) ==>
        && (q in p.files <==> q in t.files)
        && (q in p.dirs <==> q in t.dirs)
        && (q in t.files ==> p.files[q] == t.files[q])
  {
    ImageMembership(src, tgt, s);
    ImageMembership(src, tgt, sd);
    forall q | IsPrefix(src, q)
      ensures !IsPrefix(tgt, q) && !IsPrefix(q, tgt)
    {
      OutsideTarget(src, tgt, q);
    }
  }

  /** Before the first copy the state is the original one with the target created. */
  lemma PartialNone(t: Tree, src: Path, tgt: Path, decodable: Bytes -> bool)
    ensures Partial(t, src, tgt, decodable, {}, {}) == WithDirectory(t, tgt)
  {
    ImageMembership(src, tgt, {});
    assert Overlay(t.files, src, tgt, decodable, {}) == t.files;
    assert Image(src, tgt, {}) == {};
  }

  /** The one path whose source is `src + r` is `tgt + r`. */
  lemma CopyOfOne(src: Path, tgt: Path, r: Path, q: Path)
    requires r != []
    ensures CopyOf(src, tgt, {src + r}, q) <==> q == tgt + r
  {
    PrefixOfConcat(tgt, r);
    if IsStrictPrefix(tgt, q) {
      var r' := Rel(tgt, q);
      assert r' == (src + r')[|src|..];
      assert r == (src + r)[|src|..];
    }
  }

  /** Copying `src + [d]` to `tgt + [d]` puts every file at the place copying `src` to `tgt` would. */
  lemma CopyOfShift(src: Path, tgt: Path, d: string, c: set<Path>, q: Path)
    requires forall p :: p in c ==> IsStrictPrefix(src + [d], p)
    ensures CopyOf(src + [d], tgt + [d], c, q) <==> CopyOf(src, tgt, c, q)
    ensures CopyOf(src, tgt, c, q) ==> (src + [d]) + Rel(tgt + [d], q) == src + Rel(tgt, q)
  {
    InsideChild(tgt, d, q);
    if CopyOf(src + [d], tgt + [d], c, q) {
      RelChild(tgt, d, q);
      assert src + Rel(tgt, q) == (src + [d]) + Rel(tgt + [d], q);
    }
    if CopyOf(src, tgt, c, q) {
      var r := Rel(tgt, q);
      var p := src + r;
      InsideChild(src, d, p);
      assert p[|src|] == r[0] == q[|tgt|];
      RelChild(tgt, d, q);
      assert src + Rel(tgt, q) == (src + [d]) + Rel(tgt + [d], q);
    }
  }

  /** Copying one more source file `src + r` extends the overlay by its copy `tgt + r`. */
  lemma OverlayAddOne(files: map<Path, Bytes>, src: Path, tgt: Path, decodable: Bytes -> bool, s: set<Path>, r: Path)
    requires forall p :: p in s ==> p in files
    requires r != [] && src + r in files
    ensures var q := tgt + r;
      Overlay(files, src, tgt, decodable, s)[q := CopiedContent(FileName(q), files[src + r], decodable)]
      == Overlay(files, src, tgt, decodable, s + {src + r})
  {
    var s2 := s + {src + r};
    PrefixOfConcat(src, r);
    ImageMembership(src, tgt, s);
    ImageMembership(src, tgt, s2);
    var o1 := Overlay(files, src, tgt, decodable, s);
    var lhs := o1[tgt + r := CopiedContent(FileName(tgt + r), files[src + r], decodable)];
    var rhs := Overlay(files, src, tgt, decodable, s2);
    forall q
      ensures CopyOf(src, tgt, s2, q) <==> CopyOf(src, tgt, s, q) || q == tgt + r
    {
      CopyOfOne(src, tgt, r, q);
    }
    assert lhs.Keys == rhs.Keys;
    forall q | q in lhs
      ensures lhs[q] == rhs[q]
    {
      if q == tgt + r {
        PrefixOfConcat(tgt, r);
      }
    }
  }

  /** Copying one more direct file `n` extends the overlay by its copy. */
  lemma AddDirectFile(t: Tree, src: Path, tgt: Path, decodable: Bytes -> bool, names: set<string>, n: string)
    requires src + [n] in t.files
    ensures Overlay(t.files, src, tgt, decodable, DirectFiles(t.files, src, names))
              [tgt + [n] := CopiedContent(n, t.files[src + [n]], decodable)]
            == Overlay(t.files, src, tgt, decodable, DirectFiles(t.files, src, names + {n}))
  {
    var s1 := DirectFiles(t.files, src, names);
    var s2 := DirectFiles(t.files, src, names + {n});
    PrefixOfConcat(src, [n]);
    assert (src + [n])[|src|] == n;
    forall p | p in s2
      ensures p in s1 || p == src + [n]
    {
      assert p == p[..|src|] + [p[|src|]];
    }
    assert s2 == s1 + {src + [n]};
    OverlayAddOne(t.files, src, tgt, decodable, s1, [n]);
  }

  /** After the file loop every direct file has been copied. */
  lemma DirectFilesAll(t: Tree, src: Path, names: set<string>)
    requires forall n :: n in names <==> src + [n] in t.files
    ensures DirectFiles(t.files, src, names) == SelectedFiles(t.files, src, {})
  {
    forall p | p in SelectedFiles(t.files, src, {})
      ensures p[|src|] in names
    {
      assert p == p[..|src|] + [p[|src|]];
    }
  }

  /** After the subdirectory loop every file and directory below `src` has been copied. */
  lemma SelectedAll(t: Tree, src: Path, subs: set<string>)
    requires WellFormed(t)
    requires forall n :: n in subs <==> src + [n] in t.dirs
    ensures SelectedFiles(t.files, src, subs) == SourceFiles(t.files, src)
    ensures SelectedDirs(t.dirs, src, subs) == SourceDirs(t.dirs, src)
  {
    forall p | p in SourceFiles(t.files, src) && |p| > |src| + 1
      ensures p[|src|] in subs
    {
      var a := p[..|src| + 1];
      assert a == src + [p[|src|]] by {
        assert a == a[..|src|] + [a[|src|]];
      }
      assert p[..|a|] == a;
      AncestorsOfFile(t, p, a);
    }
    forall p | p in SourceDirs(t.dirs, src)
      ensures p[|src|] in subs
    {
      var a := p[..|src| + 1];
      assert a == src + [p[|src|]] by {
        assert a == a[..|src|] + [a[|src|]];
      }
      assert p[..|a|] == a;
      AncestorsOfDir(t, p, a);
    }
  }

  /** The overlay changes nothing that is not strictly inside the target. */
  lemma OverlayOutside(files: map<Path, Bytes>, src: Path, tgt: Path, decodable: Bytes -> bool, s: set<Path>, q: Path)
    requires forall p :: p in s ==> p in files
    requires !IsStrictPrefix(tgt, q)
    ensures q in Overlay(files, src, tgt, decodable, s) <==> q in files
    ensures q in files ==> Overlay(files, src, tgt, decodable, s)[q] == files[q]
  {
    ImageMembership(src, tgt, s);
  }

  /** Below `src + [d]` the overlay of the files below `src` is still the original. */
  lemma ChildSources(files: map<Path, Bytes>, src: Path, tgt: Path, decodable: Bytes -> bool, s: set<Path>, d: string)
    requires forall p :: p in s ==> p in files
    requires !Nested(src, tgt)
    ensures var cur := Overlay(files, src, tgt, decodable, s);
      && SourceFiles(cur, src + [d]) == SourceFiles(files, src + [d])
      && forall p :: p in SourceFiles(files, src + [d]) ==> cur[p] == files[p]
  {
    var cur := Overlay(files, src, tgt, decodable, s);
    forall q | IsStrictPrefix(src + [d], q)
      ensures (q in cur <==> q in files) && (q in files ==> cur[q] == files[q])
    {
      InsideChild(src, d, q);
      OutsideTarget(src, tgt, q);
      OverlayOutside(files, src, tgt, decodable, s, q);
    }
  }

  /** The files of one more subdirectory `d`: the pieces the recursive call adds. */
  lemma SelectedFilesStep(files: map<Path, Bytes>, src: Path, done: set<string>, d: string)
    ensures SelectedFiles(files, src, done + {d}) == SelectedFiles(files, src, done) + SourceFiles(files, src + [d])
  {
    forall q
      ensures IsStrictPrefix(src + [d], q) <==> IsStrictPrefix(src, q) && |q| > |src| + 1 && q[|src|] == d
    {
      InsideChild(src, d, q);
    }
  }

  lemma SelectedDirsStep(dirs: set<Path>, src: Path, done: set<string>, d: string)
    requires src + [d] in dirs
    ensures SelectedDirs(dirs, src, done + {d}) == SelectedDirs(dirs, src, done) + {src + [d]} + SourceDirs(dirs, src + [d])
  {
    PrefixOfConcat(src, [d]);
    assert (src + [d])[|src|] == d;
    forall q
      ensures IsStrictPrefix(src + [d], q) <==> IsStrictPrefix(src, q) && |q| > |src| + 1 && q[|src|] == d
    {
      InsideChild(src, d, q);
    }
    forall p | p in SelectedDirs(dirs, src, done + {d}) && |p| == |src| + 1
      ensures p in SelectedDirs(dirs, src, done) || p == src + [d]
    {
      assert p == p[..|src|] + [p[|src|]];
    }
  }

  /** The recursive call's file copies are the caller's copies of the files below `src + [d]`. */
  lemma ChildFiles(files: map<Path, Bytes>, src: Path, tgt: Path, decodable: Bytes -> bool, s: set<Path>, d: string)
    requires forall p :: p in s ==> p in files
    requires !Nested(src, tgt)
    ensures var cur := Overlay(files, src, tgt, decodable, s);
      var c := SourceFiles(files, src + [d]);
      c == SourceFiles(cur, src + [d])
      && Overlay(cur, src + [d], tgt + [d], decodable, c) == Overlay(files, src, tgt, decodable, s + c)
  {
    var cur := Overlay(files, src, tgt, decodable, s);
    var c := SourceFiles(files, src + [d]);
    ChildSources(files, src, tgt, decodable, s, d);
    var lhs := Overlay(cur, src + [d], tgt + [d], decodable, c);
    var rhs := Overlay(files, src, tgt, decodable, s + c);
    forall q
      ensures (q in lhs <==> q in rhs) && (q in lhs ==> lhs[q] == rhs[q])
    {
      ChildFileAt(files, src, tgt, decodable, s, d, q);
    }
    assert lhs == rhs;
  }

  /** One path of `ChildFiles`: present on both sides or on neither, with the same content. */
  lemma ChildFileAt(files: map<Path, Bytes>, src: Path, tgt: Path, decodable: Bytes -> bool, s: set<Path>, d: string, q: Path)
    requires forall p :: p in s ==> p in files
    requires !Nested(src, tgt)
    ensures var cur := Overlay(files, src, tgt, decodable, s);
      var c := SourceFiles(files, src + [d]);
      c == SourceFiles(cur, src + [d])
      && var lhs := Overlay(cur, src + [d], tgt + [d], decodable, c);
      var rhs := Overlay(files, src, tgt, decodable, s + c);
      (q in lhs <==> q in rhs) && (q in lhs ==> lhs[q] == rhs[q])
  {
    var cur := Overlay(files, src, tgt, decodable, s);
    var c := SourceFiles(files, src + [d]);
    ChildSources(files, src, tgt, decodable, s, d);
    forall p | p in c
      ensures IsStrictPrefix(src, p)
    {
      InsideChild(src, d, p);
    }
    ImageMembership(src + [d], tgt + [d], c);
    ImageMembership(src, tgt, s);
    ImageMembership(src, tgt, s + c);
    var lhs := Overlay(cur, src + [d], tgt + [d], decodable, c);
    var rhs := Overlay(files, src, tgt, decodable, s + c);
    CopyOfShift(src, tgt, d, c, q);
    if q in lhs {
      if CopyOf(src, tgt, c, q) {
        var p := src + Rel(tgt, q);
        assert lhs[q] == CopiedContent(FileName(q), cur[p], decodable);
        assert rhs[q] == CopiedContent(FileName(q), files[p], decodable);
      } else {
        assert lhs[q] == cur[q];
      }
    }
  }

  /** The recursive call's directories are the caller's copies of the directories from `src + [d]` down. */
  lemma ChildDirs(dirs: set<Path>, src: Path, tgt: Path, sd: set<Path>, d: string)
    requires !Nested(src, tgt)
    ensures var cur := DirOverlay(dirs, src, tgt, sd);
      var e := SourceDirs(dirs, src + [d]);
      e == SourceDirs(cur, src + [d])
      && DirOverlay(cur, src + [d], tgt + [d], e) == DirOverlay(dirs, src, tgt, sd + {src + [d]} + e)
  {
    var cur := DirOverlay(dirs, src, tgt, sd);
    var e := SourceDirs(dirs, src + [d]);
    ImageMembership(src, tgt, sd);
    forall q | IsStrictPrefix(src + [d], q)
      ensures q in cur <==> q in dirs
    {
      InsideChild(src, d, q);
      OutsideTarget(src, tgt, q);
    }
    forall p | p in e
      ensures IsStrictPrefix(src, p)
    {
      InsideChild(src, d, p);
    }
    PrefixOfConcat(src, [d]);
    ImageMembership(src + [d], tgt + [d], e);
    ImageMembership(src, tgt, e);
    ImageMembership(src, tgt, sd + {src + [d]} + e);
    var lhs := DirOverlay(cur, src + [d], tgt + [d], e);
    var rhs := DirOverlay(dirs, src, tgt, sd + {src + [d]} + e);
    forall q
      ensures q in lhs <==> q in rhs
    {
      PrefixOfChild(q, tgt, d);
      CopyOfShift(src, tgt, d, e, q);
      CopyOfOne(src, tgt, [d], q);
    }
  }

  /**
   * The recursive call for the subdirectory `d` takes the state after the
   * subdirectories `done` to the state after `done + {d}`, and has fewer
   * directories below its source than its caller.
   */
  lemma ChildStep(t: Tree, src: Path, tgt: Path, decodable: Bytes -> bool, done: set<string>, d: string)
    requires !Nested(src, tgt) && src + [d] in t.dirs
    ensures var cur := Partial(t, src, tgt, decodable, SelectedFiles(t.files, src, done), SelectedDirs(t.dirs, src, done));
      Mirror(cur, src + [d], tgt + [d], decodable)
      == Partial(t, src, tgt, decodable, SelectedFiles(t.files, src, done + {d}), SelectedDirs(t.dirs, src, done + {d}))
    ensures var cur := Partial(t, src, tgt, decodable, SelectedFiles(t.files, src, done), SelectedDirs(t.dirs, src, done));
      |SourceDirs(cur.dirs, src + [d])| < |SourceDirs(t.dirs, src)|
  {
    var sf, sd := SelectedFiles(t.files, src, done), SelectedDirs(t.dirs, src, done);
    ChildFiles(t.files, src, tgt, decodable, sf, d);
    ChildDirs(t.dirs, src, tgt, sd, d);
    SelectedFilesStep(t.files, src, done, d);
    SelectedDirsStep(t.dirs, src, done, d);
    var e := SourceDirs(t.dirs, src + [d]);
    forall p | p in e
      ensures IsStrictPrefix(src, p)
    {
      InsideChild(src, d, p);
    }
    PrefixOfConcat(src, [d]);
    assert src + [d] in SourceDirs(t.dirs, src) - e;
    ProperSubsetSmaller(e, SourceDirs(t.dirs, src), src + [d]);
  }

  lemma ProperSubsetSmaller<T>(a: set<T>, b: set<T>, x: T)
    requires a <= b && x in b && x !in a
    ensures |a| < |b|
  {
    assert b == a + (b - a) && a * (b - a) == {};
    assert |b - a| >= 1 by {
      assert x in b - a;
    }
  }

  /** Changes confined to `tgt + [d]` after changes confined to `tgt` are confined to `tgt`. */
  lemma ConfinedStep(a: Tree, b: Tree, c: Tree, tgt: Path, d: string)
    requires ConfinedTo(a, b, tgt) && ConfinedTo(b, c, tgt + [d])
    ensures ConfinedTo(a, c, tgt)
  {
    forall p
      ensures IsPrefix(tgt + [d], p) ==> IsPrefix(tgt, p)
      ensures IsPrefix(p, tgt + [d]) ==> p == tgt + [d] || IsPrefix(p, tgt)
    {
      InsideChild(tgt, d, p);
      PrefixOfChild(p, tgt, d);
    }
    PrefixOfConcat(tgt, [d]);
  }

  /**
   * `CopyDirectory(src, tgt)`: creates `tgt`, copies the files directly in
   * `src` (re-encoding the text ones as far as they decode), then recurses
   * into each subdirectory. It runs to its end exactly when the mirror has no
   * path that is both a file and a directory, and then the filesystem is the
   * mirror; otherwise .NET throws at the first clash and the caller stops.
   * The order in which files and subdirectories are listed is left open.
   */
  method CopyDirectory(fs: FileSystem, src: Path, tgt: Path) returns (ok: bool)
    requires fs.Valid() && src in fs.dirs && !Nested(src, tgt)
    modifies fs
    ensures fs.Valid()
    ensures ok <==> ClashFree(Mirror(old(fs.State()), src, tgt, fs.decodable))
    ensures ok ==> fs.State() == Mirror(old(fs.State()), src, tgt, fs.decodable)
    ensures ConfinedTo(old(fs.State()), fs.State(), tgt)
    decreases |SourceDirs(fs.dirs, src)|, 1
  {
    ghost var t0 := fs.State();
    MirrorKeepsOthers(t0, src, tgt, fs.decodable);
    ok := fs.CreateDirectory(tgt);
    if !ok {
      ghost var i :| 0 <= i <= |tgt| && tgt[..i] in t0.files;
      assert tgt[..i] in Prefixes(tgt);
      return;
    }
    ok := CopyFiles(fs, t0, src, tgt);
    if !ok {
      return;
    }
    ok := CopySubdirectories(fs, t0, src, tgt);
  }

  /** The names in a sequence are those before its last element, and that element. */
  lemma SetOfLast(order: seq<string>)
    requires order != []
    ensures Names(order) == Names(order[..|order| - 1]) + {order[|order| - 1]}
  {
    assert order == order[..|order| - 1] + [order[|order| - 1]];
  }

  /** The state after the file loop has copied the files named in `order`, one after the other. */
  ghost function FilesCopied(t: Tree, src: Path, tgt: Path, decodable: Bytes -> bool, order: seq<string>): Tree
    requires forall i :: 0 <= i < |order| ==> src + [order[i]] in t.files
    decreases |order|
  {
    if order == [] then t
    else
      var n := order[|order| - 1];
      var prev := FilesCopied(t, src, tgt, decodable, order[..|order| - 1]);
      Tree(prev.files[tgt + [n] := CopiedContent(n, t.files[src + [n]], decodable)], prev.dirs)
  }

  /** The file loop writes only strictly inside the target and creates no directory. */
  lemma {:induction false} FilesCopiedKeeps(t: Tree, src: Path, tgt: Path, decodable: Bytes -> bool, order: seq<string>)
    requires forall i :: 0 <= i < |order| ==> src + [order[i]] in t.files
    ensures var r := FilesCopied(t, src, tgt, decodable, order);
      && r.dirs == t.dirs
      && forall p :: !IsStrictPrefix(tgt, p) ==> (p in r.files <==> p in t.files) && (p in t.files ==> r.files[p] == t.files[p])
    decreases |order|
  {
    if order != [] {
      FilesCopiedKeeps(t, src, tgt, decodable, order[..|order| - 1]);
      PrefixOfConcat(tgt, [order[|order| - 1]]);
    }
  }

  /** The file loop changes nothing outside the target. */
  lemma FilesConfined(t0: Tree, src: Path, tgt: Path, decodable: Bytes -> bool, order: seq<string>)
    requires forall i :: 0 <= i < |order| ==> src + [order[i]] in t0.files
    ensures ConfinedTo(t0, FilesCopied(WithDirectory(t0, tgt), src, tgt, decodable, order), tgt)
  {
    FilesCopiedKeeps(WithDirectory(t0, tgt), src, tgt, decodable, order);
  }

  /** Whatever the order, copying the files named in `order` reaches the intermediate state of the mirror for those names. */
  lemma {:induction false} FilesCopiedIsPartial(t0: Tree, src: Path, tgt: Path, decodable: Bytes -> bool, order: seq<string>)
    requires forall i :: 0 <= i < |order| ==> src + [order[i]] in t0.files
    ensures FilesCopied(WithDirectory(t0, tgt), src, tgt, decodable, order)
         == Partial(t0, src, tgt, decodable, DirectFiles(t0.files, src, Names(order)), {})
    decreases |order|
  {
    if order == [] {
      assert DirectFiles(t0.files, src, Names(order)) == {};
      PartialNone(t0, src, tgt, decodable);
    } else {
      var k := |order| - 1;
      var n := order[k];
      FilesCopiedIsPartial(t0, src, tgt, decodable, order[..k]);
      SetOfLast(order);
      AddDirectFile(t0, src, tgt, decodable, Names(order[..k]), n);
    }
  }

  /** Copying a file of `src` fails only on a directory standing where the mirror puts a file. */
  lemma FileClash(t0: Tree, src: Path, tgt: Path, decodable: Bytes -> bool, n: string)
    requires src + [n] in t0.files && tgt + [n] in WithDirectory(t0, tgt).dirs
    ensures !ClashFree(Mirror(t0, src, tgt, decodable))
  {
    PrefixOfConcat(src, [n]);
    MirrorKeepsOthers(t0, src, tgt, decodable);
    MirrorCopiesEveryFile(t0, src, tgt, decodable, src + [n]);
  }

  /** The first loop of `CopyDirectory`: every file directly in `src`, once the target exists. */
  method CopyFiles(fs: FileSystem, ghost t0: Tree, src: Path, tgt: Path) returns (ok: bool)
    requires fs.Valid() && !Nested(src, tgt)
    requires fs.State() == WithDirectory(t0, tgt)
    modifies fs
    ensures fs.Valid()
    ensures ok ==> fs.State() == Partial(t0, src, tgt, fs.decodable, SelectedFiles(t0.files, src, {}), {})
    ensures !ok ==> !ClashFree(Mirror(t0, src, tgt, fs.decodable))
    ensures ConfinedTo(t0, fs.State(), tgt)
  {
    ghost var dec := fs.decodable;
    var names := fs.ListFiles(src);
    FilesStart(t0, src, tgt, names);
    ghost var k;
    ok, k := CopyListedFiles(fs, t0, src, tgt, names);
    FilesConfined(t0, src, tgt, dec, names[..k]);
    if !ok {
      FileClash(t0, src, tgt, dec, names[k]);
      return;
    }
    FilesDone(t0, src, tgt, dec, names);
  }

  /**
   * The loop over the listing: each file in turn, stopping at the first copy
   * that throws. `k` counts the files copied before the loop ended.
   */
  method CopyListedFiles(fs: FileSystem, ghost t0: Tree, src: Path, tgt: Path, names: seq<string>)
    returns (ok: bool, ghost k: nat)
    requires fs.Valid() && !Nested(src, tgt)
    requires fs.State() == WithDirectory(t0, tgt)
    requires forall k :: 0 <= k < |names| ==> src + [names[k]] in t0.files
    modifies fs
    ensures fs.Valid()
    ensures k <= |names|
    ensures fs.State() == FilesCopied(old(fs.State()), src, tgt, fs.decodable, names[..k])
    ensures ok ==> k == |names|
    ensures !ok ==> k < |names| && tgt + [names[k]] in old(fs.dirs)
  {
    ghost var dec := fs.decodable;
    ghost var t1 := fs.State();
    assert src != tgt;
    ok := true;
    k := 0;
    for i := 0 to |names|
      invariant fs.Valid()
      invariant fs.State() == FilesCopied(t1, src, tgt, dec, names[..i])
    {
      ok := CopyListedFile(fs, t0, t1, src, tgt, names, i);
      if !ok {
        k := i;
        return;
      }
    }
    k := |names|;
  }

  /** One pass of the file loop: `names[i]` is copied and the fold grows by one copy, or its copy throws and nothing changes. */
  method CopyListedFile(fs: FileSystem, ghost t0: Tree, ghost t1: Tree, src: Path, tgt: Path, names: seq<string>, i: nat)
    returns (ok: bool)
    requires fs.Valid() && !Nested(src, tgt) && i < |names|
    requires t1 == WithDirectory(t0, tgt)
    requires forall k :: 0 <= k < |names| ==> src + [names[k]] in t0.files
    requires fs.State() == FilesCopied(t1, src, tgt, fs.decodable, names[..i])
    modifies fs
    ensures fs.Valid()
    ensures ok ==> fs.State() == FilesCopied(t1, src, tgt, fs.decodable, names[..i + 1])
    ensures !ok ==> fs.State() == old(fs.State()) && tgt + [names[i]] in t1.dirs
  {
    var n := names[i];
    FileStep(t0, src, tgt, fs.decodable, names, i);
    assert src != tgt;
    ok := CopyFileEntry(fs, src, tgt, n);
  }

  /** The listing taken once the target exists names exactly the files directly in the source. */
  lemma FilesStart(t0: Tree, src: Path, tgt: Path, names: seq<string>)
    requires Names(names) == FileNamesIn(WithDirectory(t0, tgt), src)
    ensures forall n :: n in Names(names) <==> src + [n] in t0.files
    ensures forall k :: 0 <= k < |names| ==> src + [names[k]] in t0.files
  {
    assert forall k :: 0 <= k < |names| ==> names[k] in Names(names);
  }

  /** One pass of the file loop: the source file is still untouched, and the fold grows by one copy. */
  lemma FileStep(t0: Tree, src: Path, tgt: Path, decodable: Bytes -> bool, names: seq<string>, i: nat)
    requires !Nested(src, tgt) && i < |names|
    requires forall k :: 0 <= k < |names| ==> src + [names[k]] in t0.files
    ensures var t1 := WithDirectory(t0, tgt);
      var prev := FilesCopied(t1, src, tgt, decodable, names[..i]);
      var n := names[i];
      && prev.dirs == t1.dirs
      && src + [n] in prev.files && prev.files[src + [n]] == t0.files[src + [n]]
      && FilesCopied(t1, src, tgt, decodable, names[..i + 1])
         == Tree(prev.files[tgt + [n] := CopiedContent(n, t0.files[src + [n]], decodable)], prev.dirs)
  {
    var t1 := WithDirectory(t0, tgt);
    var n := names[i];
    assert names[..i + 1][..i] == names[..i];
    OutsideTarget(src, tgt, src + [n]);
    PrefixOfConcat(src, [n]);
    FilesCopiedKeeps(t1, src, tgt, decodable, names[..i]);
  }

  /** After every file the loop's state is the intermediate state with all direct files copied. */
  lemma FilesDone(t0: Tree, src: Path, tgt: Path, decodable: Bytes -> bool, names: seq<string>)
    requires forall n :: n in Names(names) <==> src + [n] in t0.files
    requires forall k :: 0 <= k < |names| ==> src + [names[k]] in t0.files
    ensures FilesCopied(WithDirectory(t0, tgt), src, tgt, decodable, names[..|names|])
         == Partial(t0, src, tgt, decodable, SelectedFiles(t0.files, src, {}), {})
  {
    assert names[..|names|] == names;
    FilesCopiedIsPartial(t0, src, tgt, decodable, names);
    DirectFilesAll(t0, src, Names(names));
  }

  /** One pass of that loop: copy `src + [n]` to `tgt + [n]` and re-encode the copy if it is a text file. */
  method CopyFileEntry(fs: FileSystem, src: Path, tgt: Path, n: string) returns (ok: bool)
    requires fs.Valid() && src + [n] in fs.files && tgt in fs.dirs
    modifies fs
    ensures fs.Valid()
    ensures ok <==> tgt + [n] !in old(fs.dirs) && src != tgt
    ensures fs.dirs == old(fs.dirs)
    ensures fs.files == if ok then old(fs.files)[tgt + [n] := CopiedContent(n, old(fs.files)[src + [n]], fs.decodable)] else old(fs.files)
  {
    ghost var b := fs.files[src + [n]];
    SameChild(src, tgt, n);
    ok := fs.CopyFile(src + [n], tgt + [n]);
    if !ok {
      return;
    }
    assert fs.files == old(fs.files)[tgt + [n] := b];
    if IsTextFile(n) {
      var reencoded := fs.Reencode(tgt + [n]);
      assert fs.files == old(fs.files)[tgt + [n] := if fs.decodable(b) then Normalize(b) else b];
    }
  }

  /** The state after the subdirectory loop has mirrored the subdirectories named in `order`, one after the other. */
  ghost function SubdirsCopied(t: Tree, src: Path, tgt: Path, decodable: Bytes -> bool, order: seq<string>): Tree
    decreases |order|
  {
    if order == [] then t
    else
      var d := order[|order| - 1];
      Mirror(SubdirsCopied(t, src, tgt, decodable, order[..|order| - 1]), src + [d], tgt + [d], decodable)
  }

  /** Whatever the order, mirroring the subdirectories named in `order` reaches the intermediate state of the mirror for those names. */
  lemma {:induction false} SubdirsCopiedIsPartial(t0: Tree, src: Path, tgt: Path, decodable: Bytes -> bool, order: seq<string>)
    requires !Nested(src, tgt)
    requires forall i :: 0 <= i < |order| ==> src + [order[i]] in t0.dirs
    ensures SubdirsCopied(Partial(t0, src, tgt, decodable, SelectedFiles(t0.files, src, {}), {}), src, tgt, decodable, order)
         == Partial(t0, src, tgt, decodable, SelectedFiles(t0.files, src, Names(order)), SelectedDirs(t0.dirs, src, Names(order)))
    decreases |order|
  {
    var t2 := Partial(t0, src, tgt, decodable, SelectedFiles(t0.files, src, {}), {});
    if order == [] {
      assert Names(order) == {};
      assert SelectedDirs(t0.dirs, src, {}) == {};
    } else {
      var k := |order| - 1;
      var d := order[k];
      var done := Names(order[..k]);
      var prev := SubdirsCopied(t2, src, tgt, decodable, order[..k]);
      SubdirsCopiedIsPartial(t0, src, tgt, decodable, order[..k]);
      assert prev == Partial(t0, src, tgt, decodable, SelectedFiles(t0.files, src, done), SelectedDirs(t0.dirs, src, done));
      ChildStep(t0, src, tgt, decodable, done, d);
      SetOfLast(order);
      assert SubdirsCopied(t2, src, tgt, decodable, order) == Mirror(prev, src + [d], tgt + [d], decodable);
    }
  }

  /**
   * One pass of the subdirectory loop, after the subdirectories in `order`:
   * the recursive call may be made (its source exists, is apart from its
   * target and has fewer directories below it), it extends the loop's state,
   * and a clash it meets is a clash of the whole mirror.
   */
  lemma SubdirStep(t0: Tree, src: Path, tgt: Path, decodable: Bytes -> bool, subs: seq<string>, i: nat)
    requires !Nested(src, tgt) && i < |subs|
    requires forall k :: 0 <= k < |subs| ==> src + [subs[k]] in t0.dirs
    ensures var t2 := Partial(t0, src, tgt, decodable, SelectedFiles(t0.files, src, {}), {});
      var cur := SubdirsCopied(t2, src, tgt, decodable, subs[..i]);
      var d := subs[i];
      && src + [d] in cur.dirs
      && !Nested(src + [d], tgt + [d])
      && |SourceDirs(cur.dirs, src + [d])| < |SourceDirs(t0.dirs, src)|
      && ConfinedTo(t0, cur, tgt)
      && Mirror(cur, src + [d], tgt + [d], decodable) == SubdirsCopied(t2, src, tgt, decodable, subs[..i + 1])
      && (!ClashFree(Mirror(cur, src + [d], tgt + [d], decodable)) ==> !ClashFree(Mirror(t0, src, tgt, decodable)))
  {
    var order := subs[..i];
    var d := subs[i];
    var done := Names(order);
    var order' := subs[..i + 1];
    assert order' == order + [d];
    assert order'[..|order|] == order;
    SubdirsCopiedIsPartial(t0, src, tgt, decodable, order);
    SubdirsCopiedIsPartial(t0, src, tgt, decodable, order');
    SetOfLast(order');
    PrefixOfConcat(src, [d]);
    NotNestedChild(src, tgt, d);
    PartialKeepsSource(t0, src, tgt, decodable, SelectedFiles(t0.files, src, done), SelectedDirs(t0.dirs, src, done));
    PartialConfined(t0, src, tgt, decodable, SelectedFiles(t0.files, src, done), SelectedDirs(t0.dirs, src, done));
    ChildStep(t0, src, tgt, decodable, done, d);
    PartialWithinMirror(t0, src, tgt, decodable, SelectedFiles(t0.files, src, done + {d}), SelectedDirs(t0.dirs, src, done + {d}));
  }

  /** After every subdirectory the loop's state is the mirror. */
  lemma SubdirsDone(t0: Tree, src: Path, tgt: Path, decodable: Bytes -> bool, subs: seq<string>)
    requires !Nested(src, tgt) && WellFormed(t0)
    requires forall n :: n in Names(subs) <==> src + [n] in t0.dirs
    ensures SubdirsCopied(Partial(t0, src, tgt, decodable, SelectedFiles(t0.files, src, {}), {}), src, tgt, decodable, subs[..|subs|])
         == Mirror(t0, src, tgt, decodable)
  {
    assert subs[..|subs|] == subs;
    SubdirsCopiedIsPartial(t0, src, tgt, decodable, subs);
    SelectedAll(t0, src, Names(subs));
  }

  /**
   * The file loop left the subdirectories of `src` as they were, so the
   * listing taken after it names exactly the subdirectories of the source.
   */
  lemma SubdirsStart(t0: Tree, src: Path, tgt: Path, decodable: Bytes -> bool, subs: seq<string>)
    requires !Nested(src, tgt)
    requires Names(subs) == SubdirNamesIn(Partial(t0, src, tgt, decodable, SelectedFiles(t0.files, src, {}), {}), src)
    ensures forall n :: n in Names(subs) <==> src + [n] in t0.dirs
    ensures forall k :: 0 <= k < |subs| ==> src + [subs[k]] in t0.dirs
  {
    PartialKeepsSource(t0, src, tgt, decodable, SelectedFiles(t0.files, src, {}), {});
    forall n
      ensures IsPrefix(src, src + [n])
    {
      PrefixOfConcat(src, [n]);
    }
    assert forall k :: 0 <= k < |subs| ==> subs[k] in Names(subs);
  }

  /** The second loop of `CopyDirectory`: the recursive copy of every subdirectory of `src`. */
  method CopySubdirectories(fs: FileSystem, ghost t0: Tree, src: Path, tgt: Path) returns (ok: bool)
    requires fs.Valid() && !Nested(src, tgt) && WellFormed(t0)
    requires fs.State() == Partial(t0, src, tgt, fs.decodable, SelectedFiles(t0.files, src, {}), {})
    modifies fs
    ensures fs.Valid()
    ensures ok <==> ClashFree(Mirror(t0, src, tgt, fs.decodable))
    ensures ok ==> fs.State() == Mirror(t0, src, tgt, fs.decodable)
    ensures ConfinedTo(t0, fs.State(), tgt)
    decreases |SourceDirs(t0.dirs, src)|, 0
  {
    ghost var dec := fs.decodable;
    ghost var t2 := fs.State();
    var subs := fs.ListSubdirs(src);
    SubdirsStart(t0, src, tgt, dec, subs);
    for i := 0 to |subs|
      invariant fs.Valid()
      invariant fs.State() == SubdirsCopied(t2, src, tgt, dec, subs[..i])
    {
      var d := subs[i];
      ghost var cur := fs.State();
      SubdirStep(t0, src, tgt, dec, subs, i);
      ok := CopyDirectory(fs, src + [d], tgt + [d]);
      if !ok {
        ConfinedStep(t0, cur, fs.State(), tgt, d);
        return;
      }
    }
    SubdirsDone(t0, src, tgt, dec, subs);
    MirrorConfined(t0, src, tgt, dec);
    ok := true;
  }
}
