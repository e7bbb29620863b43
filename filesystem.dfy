/**
 * The filesystem behind the `File` facade: a map from file path to contents
 * and a set of directory paths. Paths are compared as plain strings, so
 * `a//b` and `a/b` would be two files. The compiled views, whose path the
 * code writes with a doubled separator, are stored in the single-separator
 * form the operating system and the Finder use; configured folder names are
 * taken as they are.
 */
module Fs {

  /** DIRECTORY_SEPARATOR on the POSIX systems the command runs on. */
  const SEP: string := "/"

  predicate StartsWith(s: string, prefix: string)
  {
    |prefix| <= |s| && s[..|prefix|] == prefix
  }

  /** The directory as a prefix of the paths below it: a trailing separator is added when missing. */
  function DirPrefix(dir: string): (r: string)
    ensures |r| > 0 && r[|r| - 1] == '/'
    ensures StartsWith(r, dir)
  {
    if |dir| > 0 && dir[|dir| - 1] == '/' then dir else dir + SEP
  }

  /** `p` names a file somewhere below `dir`. */
  predicate Under(dir: string, p: string)
  {
    StartsWith(p, DirPrefix(dir)) && |p| > |DirPrefix(dir)|
  }

  /** The path of `p` relative to the folder `dir` it lies below. */
  function RelativePath(dir: string, p: string): string
    requires Under(dir, p)
  {
    p[|DirPrefix(dir)|..]
  }

  /** A component of `rel` starts at `i` with a dot that something follows. */
  predicate DotAt(rel: string, i: int)
  {
    0 <= i < |rel| - 1 && rel[i] == '.' && (i == 0 || rel[i - 1] == '/')
  }

  /** A folder called `name` starts at `i` and has more of the path below it. */
  predicate FolderAt(rel: string, i: int, name: string)
  {
    0 <= i && i + |name| < |rel| && (i == 0 || rel[i - 1] == '/') && rel[i..i + |name|] == name && rel[i + |name|] == '/'
  }

  /**
   * What Symfony's Finder skips by default: a path with a component that
   * starts with a dot (dot files, and the folders of Git, Subversion,
   * Mercurial, Bazaar, Arch and Monotone), and files inside folders called
   * `CVS`, `_svn` or `_darcs`.
   */
  predicate Ignored(rel: string)
  {
    || (exists i :: 0 <= i < |rel| && DotAt(rel, i))
    || (exists i :: 0 <= i < |rel| && FolderAt(rel, i, "CVS"))
    || (exists i :: 0 <= i < |rel| && FolderAt(rel, i, "_svn"))
    || (exists i :: 0 <= i < |rel| && FolderAt(rel, i, "_darcs"))
  }

  /** `p` lies below `dir` and a listing of `dir` reports it. */
  predicate Visible(dir: string, p: string)
  {
    Under(dir, p) && !Ignored(RelativePath(dir, p))
  }

  /**
   * The default rules at work: an editor's `.DS_Store`, a file kept by git
   * and a CVS bookkeeping file are skipped; a view in a sub-folder is not.
   */
  lemma IgnoredExamples()
    ensures Ignored(".DS_Store") && Ignored("lang/.git/config") && Ignored("admin/CVS/Entries")
    ensures !Ignored("admin/users.blade.php")
  {
    assert DotAt(".DS_Store", 0);
    assert DotAt("lang/.git/config", 5);
    assert "admin/CVS/Entries"[6..9] == "CVS";
    assert FolderAt("admin/CVS/Entries", 6, "CVS");
    var v := "admin/users.blade.php";
    assert forall i :: 0 <= i < |v| && v[i] == '.' ==> v[i - 1] != '/';
    assert forall i :: 0 <= i < |v| && v[i] == '/' ==> i == 5;
  }

  predicate NoDuplicates(s: seq<string>)
  {
    forall i, j :: 0 <= i < j < |s| ==> s[i] != s[j]
  }

  /** `r` is a recursive listing of `dir` in `files`: every visible file below `dir`, once, in some order. */
  predicate IsListing(files: map<string, string>, dir: string, r: seq<string>)
  {
    && NoDuplicates(r)
    && (forall p :: p in r ==> p in files && Visible(dir, p))
    && (forall p :: p in files && Visible(dir, p) ==> p in r)
  }

  /** A listing holds nothing exactly when no visible file lies below the directory. */
  lemma ListingEmpty(files: map<string, string>, dir: string, r: seq<string>)
    requires IsListing(files, dir, r)
    ensures r == [] <==> forall p :: p in files ==> !Visible(dir, p)
  {
    if r != [] {
      assert r[0] in r;
    }
  }

  /** `files` with the file at `to` replaced by a copy of the one at `from`; unchanged when `from` is missing. */
  function CopyFile(files: map<string, string>, from: string, to: string): (r: map<string, string>)
    ensures from in files ==> to in r && r[to] == files[from]
    ensures from !in files ==> r == files
    ensures forall p :: p in files && p != to ==> p in r && r[p] == files[p]
    ensures r.Keys == if from in files then files.Keys + {to} else files.Keys
  {
    if from in files then files[to := files[from]] else files
  }

  class Filesystem {
    var files: map<string, string>
    var dirs: set<string>

    constructor (files0: map<string, string>, dirs0: set<string>)
      ensures files == files0 && dirs == dirs0
    {
      files := files0;
      dirs := dirs0;
    }

    /** `File::allFiles($dir)`: every file below `dir` the Finder does not skip, in an order the filesystem chooses. */
    method AllFiles(dir: string) returns (r: seq<string>)
      ensures IsListing(files, dir, r)
    {
      var pending := set p | p in files && Visible(dir, p);
      r := [];
      while pending != {}
        invariant NoDuplicates(r)
        invariant forall p :: p in pending ==> p in files && Visible(dir, p)
        invariant forall p :: p in r <==> p in files && Visible(dir, p) && p !in pending
        decreases |pending|
      {
        var p :| p in pending;
        r := r + [p];
        pending := pending - {p};
      }
    }

    /** `File::isDirectory($dir)`. */
    predicate IsDirectory(dir: string)
      reads this
    {
      dir in dirs
    }

    /** `File::exists($path)` for the file paths the command asks about. */
    predicate Exists(path: string)
      reads this
    {
      path in files
    }

    /** `File::makeDirectory($dir, 0775, true)`. */
    method MakeDirectory(dir: string)
      modifies this
      ensures dirs == old(dirs) + {dir} && files == old(files)
    {
      dirs := dirs + {dir};
    }

    /** `File::copy($from, $to)`; copying a missing file fails and changes nothing. */
    method Copy(from: string, to: string) returns (ok: bool)
      modifies this
      ensures ok == (from in old(files))
      ensures files == CopyFile(old(files), from, to) && dirs == old(dirs)
    {
      ok := from in files;
      if ok {
        files := files[to := files[from]];
      }
    }

    /** `File::delete($path)`. */
    method Delete(path: string) returns (ok: bool)
      modifies this
      ensures ok == (path in old(files))
      ensures files == old(files) - {path} && dirs == old(dirs)
    {
      ok := path in files;
      files := files - {path};
    }

    /** Writes `contents` to `path`, as the compiler and the external tools do. */
    method Put(path: string, contents: string)
      modifies this
      ensures files == old(files)[path := contents] && dirs == old(dirs)
    {
      files := files[path := contents];
    }
  }
}
