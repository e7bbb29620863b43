/**
 * The extraction half of the `gettext` command as pure functions: which view
 * files are compiled, the ordered file list handed to xgettext, and xgettext's
 * argument vector. The imperative steps of `GettextCommand` are proved equal
 * to these functions; the lemmas here say what the functions mean.
 *
 * The partner of the argument builder is `ReadArgs`, a reader of an
 * xgettext command line: reading back a built vector recovers every option
 * the configuration asked for and the file list, except the keywords, which
 * the code passes as the literal text `--keyword=$k` (see `KeywordArgs`).
 */
module Extraction {
  import opened Wrappers
  import opened Php
  import opened Fs

  /** The command's options, as `$this->option(...)` returns them. */
  datatype Options = Options(
    cache: Scalar,
    additional: Value,
    cleanup: Scalar,
    msgmerge: Scalar,
    binary: Scalar,
    binaryPath: Scalar,
    comments: Scalar,
    forcePo: Scalar,
    noLocation: Scalar,
    fromCode: Scalar,
    author: Scalar,
    packageName: Scalar,
    packageVersion: Scalar,
    email: Scalar,
    keywords: seq<string>)

  // ---------------------------------------------------------------- Blade views

  /** `substr($s, -n)`: the last `n` characters, or all of `s` when it is shorter. */
  function Tail(s: string, n: nat): (r: string)
    ensures |r| == if |s| < n then |s| else n
    ensures s == s[..|s| - |r|] + r
  {
    if |s| <= n then s else s[|s| - n..]
  }

  /** A Blade template: the last nine characters of the pathname are `blade.php`. */
  predicate IsBlade(path: string)
  {
    Tail(path, 9) == "blade.php"
  }

  /** The views kept by the filter in `compile`. */
  function Blades(views: seq<string>): (r: seq<string>)
    ensures forall p :: p in r <==> p in views && IsBlade(p)
  {
    if |views| == 0 then []
    else (if IsBlade(views[0]) then [views[0]] else []) + Blades(views[1..])
  }

  /** The views kept by the filter in `fire`: every view that is not a Blade template. */
  function NonBlades(views: seq<string>): (r: seq<string>)
    ensures forall p :: p in r <==> p in views && !IsBlade(p)
  {
    if |views| == 0 then []
    else (if IsBlade(views[0]) then [] else [views[0]]) + NonBlades(views[1..])
  }

  /** The positions `idx` of `s`, strictly increasing, spell out `r`. */
  predicate Picks(idx: seq<int>, r: seq<string>, s: seq<string>)
  {
    && |idx| == |r|
    && (forall k :: 0 <= k < |idx| ==> 0 <= idx[k] < |s| && r[k] == s[idx[k]])
    && (forall j, k :: 0 <= j < k < |idx| ==> idx[j] < idx[k])
  }

  /** `r` is `s` with some elements left out and the others in their order. */
  ghost predicate Subsequence(r: seq<string>, s: seq<string>)
  {
    exists idx :: Picks(idx, r, s)
  }

  /** Putting `h` in front of `s`, and possibly of `r`, keeps `r` a subsequence. */
  lemma ConsPicks(idx: seq<int>, r: seq<string>, s: seq<string>, h: string, keep: bool)
    requires Picks(idx, r, s)
    ensures Subsequence((if keep then [h] else []) + r, [h] + s)
  {
    var shifted := seq(|idx|, k requires 0 <= k < |idx| => idx[k] + 1);
    if keep {
      assert Picks([0] + shifted, [h] + r, [h] + s);
    } else {
      assert Picks(shifted, r, [h] + s);
      assert (if keep then [h] else []) + r == r;
    }
  }

  /** Like `array_filter`, both filters keep the views in the order of the listing. */
  lemma {:induction false} FiltersKeepOrder(views: seq<string>)
    ensures Subsequence(Blades(views), views)
    ensures Subsequence(NonBlades(views), views)
    decreases |views|
  {
    if |views| == 0 {
      assert Picks([], [], views);
    } else {
      var h, rest := views[0], views[1..];
      assert views == [h] + rest;
      FiltersKeepOrder(rest);
      var bi :| Picks(bi, Blades(rest), rest);
      var ni :| Picks(ni, NonBlades(rest), rest);
      ConsPicks(bi, Blades(rest), rest, h, IsBlade(h));
      ConsPicks(ni, NonBlades(rest), rest, h, !IsBlade(h));
    }
  }

  /** The two filters split the view list: every occurrence goes to exactly one side. */
  lemma {:induction false} BladesPartition(views: seq<string>)
    ensures multiset(Blades(views)) + multiset(NonBlades(views)) == multiset(views)
  {
    if |views| > 0 {
      var h, rest := views[0], views[1..];
      BladesPartition(rest);
      assert views == [h] + rest;
      var b := if IsBlade(h) then [h] else [];
      var n := if IsBlade(h) then [] else [h];
      assert Blades(views) == b + Blades(rest);
      assert NonBlades(views) == n + NonBlades(rest);
      assert multiset(b) + multiset(n) == multiset([h]);
    }
  }

  /** An md5 digest as PHP's `md5()` prints it: 32 lower-case hexadecimal digits. */
  type Md5 = s: string | |s| == 32 && forall i :: 0 <= i < |s| ==> s[i] in "0123456789abcdef"
    witness "00000000000000000000000000000000"

  /**
   * The Blade compiler, a collaborator: the md5 digest naming a view's
   * compiled form, and what it writes there.
   */
  datatype Blade = Blade(digest: string -> Md5, compileString: string -> string)

  /**
   * The compiled path of a view: the cache path, '/', and the digest of the
   * view's path. The command hands Blade a cache path that already ends in
   * '/', so the string Blade builds holds `//`; the file system reads that as
   * one separator, and the model stores the path in that single-separator
   * form, the one a listing of the cache folder returns.
   */
  function CompiledPath(blade: Blade, cachePath: string, view: string): string
  {
    DirPrefix(cachePath) + blade.digest(view)
  }

  /** The cache folder of the command: the application path, the `cache` option and a separator. */
  function CacheFolder(app: string, opts: Options): (r: string)
    ensures |r| > 0 && r[|r| - 1] == '/'
  {
    app + SEP + ToStr(opts.cache) + SEP
  }

  /** The views folder of the command. */
  function ViewsFolder(app: string): (r: string)
  {
    app + SEP + "views" + SEP
  }

  /** The files after compiling `views` one after another into `cachePath`. */
  function CompileAll(files: map<string, string>, blade: Blade, cachePath: string, views: seq<string>): (r: map<string, string>)
    requires forall v :: v in views ==> v in files
    ensures r.Keys == files.Keys + set v | v in views :: CompiledPath(blade, cachePath, v)
    ensures forall p :: p in files && p !in (set v | v in views :: CompiledPath(blade, cachePath, v)) ==> r[p] == files[p]
    decreases |views|
  {
    if |views| == 0 then files
    else
      var v := views[0];
      var next := files[CompiledPath(blade, cachePath, v) := blade.compileString(files[v])];
      var rest := CompileAll(next, blade, cachePath, views[1..]);
      assert forall w :: w in views <==> w == v || w in views[1..];
      rest
  }

  /** Distinct views have distinct compiled paths. */
  predicate DistinctDigests(blade: Blade, cachePath: string, views: seq<string>)
  {
    forall j, k :: 0 <= j < k < |views| && CompiledPath(blade, cachePath, views[j]) == CompiledPath(blade, cachePath, views[k])
      ==> views[j] == views[k]
  }

  /** No view is the compiled file of a view. */
  predicate NoneCompiled(blade: Blade, cachePath: string, views: seq<string>)
  {
    forall j, k :: 0 <= j < |views| && 0 <= k < |views| ==> views[j] != CompiledPath(blade, cachePath, views[k])
  }

  /**
   * The compiled file of each view holds what Blade makes of that view's
   * contents, provided distinct views have distinct digests and no view is
   * itself a compiled file.
   */
  lemma {:induction false} CompileAllContents(files: map<string, string>, blade: Blade, cachePath: string,
                                              views: seq<string>, i: int)
    requires forall v :: v in views ==> v in files
    requires DistinctDigests(blade, cachePath, views) && NoneCompiled(blade, cachePath, views)
    requires 0 <= i < |views|
    ensures var r := CompileAll(files, blade, cachePath, views);
      CompiledPath(blade, cachePath, views[i]) in r
      && r[CompiledPath(blade, cachePath, views[i])] == blade.compileString(files[views[i]])
    decreases |views|
  {
    var v, rest := views[0], views[1..];
    var cp := CompiledPath(blade, cachePath, v);
    var next := files[cp := blade.compileString(files[v])];
    assert CompileAll(files, blade, cachePath, views) == CompileAll(next, blade, cachePath, rest);
    assert forall k :: 0 <= k < |rest| ==> rest[k] == views[k + 1];
    assert forall w :: w in rest ==> w in views;
    assert DistinctDigests(blade, cachePath, rest) && NoneCompiled(blade, cachePath, rest);
    if i > 0 {
      assert rest[i - 1] == views[i];
      assert views[i] != cp;
      CompileAllContents(next, blade, cachePath, rest, i - 1);
    } else if v in rest {
      var k :| 0 <= k < |rest| && rest[k] == v;
      assert v != cp;
      CompileAllContents(next, blade, cachePath, rest, k);
    } else {
      HeadNotRecompiled(blade, cachePath, views);
    }
  }

  /** A view that does not come again is compiled to a path no later view is compiled to. */
  lemma HeadNotRecompiled(blade: Blade, cachePath: string, views: seq<string>)
    requires |views| > 0 && views[0] !in views[1..]
    requires DistinctDigests(blade, cachePath, views)
    ensures CompiledPath(blade, cachePath, views[0]) !in (set w | w in views[1..] :: CompiledPath(blade, cachePath, w))
  {
    forall w | w in views[1..]
      ensures CompiledPath(blade, cachePath, w) != CompiledPath(blade, cachePath, views[0])
    {
      var k :| 0 <= k < |views[1..]| && views[1..][k] == w;
      assert views[k + 1] == w;
    }
  }

  /**
   * A compiled view lands below the cache folder under a name the Finder
   * does not skip, so the listing of the cache folder finds it.
   */
  lemma CompiledListed(blade: Blade, cachePath: string, view: string)
    requires |cachePath| > 0 && cachePath[|cachePath| - 1] == '/'
    ensures Visible(cachePath, CompiledPath(blade, cachePath, view))
  {
    var p := CompiledPath(blade, cachePath, view);
    var h := blade.digest(view);
    assert p[..|cachePath|] == cachePath;
    var rel := RelativePath(cachePath, p);
    assert rel == h;
    assert forall j :: 0 <= j < |rel| ==> rel[j] != '/' && rel[j] != '.';
    forall name | name in ["CVS", "_svn", "_darcs"]
      ensures forall i :: 0 <= i < |rel| ==> !FolderAt(rel, i, name)
    {
    }
  }

  // ------------------------------------------------------------------ file list

  /** The additional folders: an array option as it is, any other value split on ','. */
  function AdditionalPaths(additional: Value): (r: seq<string>)
    ensures additional.Array? ==> |r| == |additional.items|
    ensures additional.Array? ==> forall i :: 0 <= i < |r| ==> r[i] == ToStr(additional.items[i])
    ensures additional.Scalar? ==> |r| >= 1 && Implode(',', r) == ToStr(additional.v)
    ensures additional.Scalar? ==> forall i :: 0 <= i < |r| ==> ',' !in r[i]
  {
    match additional
    case Array(items) => seq(|items|, i requires 0 <= i < |items| => ToStr(items[i]))
    case Scalar(x) => ImplodeExplode(',', ToStr(x)); Explode(',', ToStr(x))
  }

  /** An additional folder, relative to the application path. */
  function AdditionalFolder(app: string, path: string): string
  {
    app + SEP + path
  }

  /** The lists of `xss` one after another. */
  function Flatten(xss: seq<seq<string>>): (r: seq<string>)
    ensures forall p :: p in r <==> exists i :: 0 <= i < |xss| && p in xss[i]
  {
    if |xss| == 0 then []
    else
      var init := xss[..|xss| - 1];
      var r := Flatten(init) + xss[|xss| - 1];
      assert forall i :: 0 <= i < |init| ==> init[i] == xss[i];
      r
  }

  /** The list handed to xgettext: non-Blade views, then the cache listing, then each additional listing. */
  function FileList(views: seq<string>, cacheFiles: seq<string>, extra: seq<seq<string>>): (r: seq<string>)
    ensures |r| == |NonBlades(views)| + |cacheFiles| + |Flatten(extra)|
    ensures r[..|NonBlades(views)|] == NonBlades(views)
    ensures r[|NonBlades(views)|..|NonBlades(views)| + |cacheFiles|] == cacheFiles
    ensures r[|NonBlades(views)| + |cacheFiles|..] == Flatten(extra)
  {
    NonBlades(views) + cacheFiles + Flatten(extra)
  }

  // ----------------------------------------------------------- xgettext argv

  /** The output template: `<app>/<path>/<textdomain>.pot`. */
  function OutputFile(app: string, path: string, textdomain: string): string
  {
    app + SEP + path + SEP + textdomain + ".pot"
  }

  /** The binary: the `binary` option, prefixed by `binary_path` and a separator unless that path `== ''`. */
  function XgettextBinary(opts: Options): (r: string)
    ensures LooseEqualsEmpty(opts.binaryPath) ==> r == ToStr(opts.binary)
    ensures !LooseEqualsEmpty(opts.binaryPath) ==> r == ToStr(opts.binaryPath) + SEP + ToStr(opts.binary)
  {
    (if LooseEqualsEmpty(opts.binaryPath) then "" else ToStr(opts.binaryPath) + SEP) + ToStr(opts.binary)
  }

  /** One optional flag: whether it is passed, and the argument when it is. */
  datatype Flag = Flag(on: bool, arg: string)

  /** The eight optional flags in the order the command tests them. */
  function FlagTable(opts: Options): (t: seq<Flag>)
    ensures |t| == 8
  {
    [ Flag(Truthy(opts.comments), "--add-comments=" + ToStr(opts.comments)),
      Flag(opts.forcePo == Bool(true), "--force-po"),
      Flag(Truthy(opts.noLocation), "--no-location"),
      Flag(Truthy(opts.fromCode), "--from-code=" + ToStr(opts.fromCode)),
      Flag(Truthy(opts.author), "--copyright-holder=" + ToStr(opts.author)),
      Flag(Truthy(opts.packageName), "--package-name=" + ToStr(opts.packageName)),
      Flag(Truthy(opts.packageVersion), "--package-version=" + ToStr(opts.packageVersion)),
      Flag(Truthy(opts.email), "--msgid-bugs-address=" + ToStr(opts.email)) ]
  }

  /** The arguments of the flags that are on, in table order. */
  function Present(table: seq<Flag>): (r: seq<string>)
    ensures |r| <= |table|
  {
    if |table| == 0 then []
    else (if table[0].on then [table[0].arg] else []) + Present(table[1..])
  }

  /** The flags of two tables one after the other are those of the first, then those of the second. */
  lemma {:induction false} PresentConcat(a: seq<Flag>, b: seq<Flag>)
    ensures Present(a + b) == Present(a) + Present(b)
    decreases |a|
  {
    if |a| > 0 {
      PresentConcat(a[1..], b);
      assert (a + b)[1..] == a[1..] + b;
      assert (a + b)[0] == a[0];
      var h := if a[0].on then [a[0].arg] else [];
      assert Present(a + b) == h + Present(a[1..] + b);
      assert Present(a) == h + Present(a[1..]);
      assert h + (Present(a[1..]) + Present(b)) == (h + Present(a[1..])) + Present(b);
    } else {
      assert a + b == b;
    }
  }

  /** Appending a flag's argument when it is on extends the arguments of the flags before it by that flag's. */
  lemma AppendFlag(argv: seq<string>, head: seq<string>, before: seq<Flag>, f: Flag)
    requires argv == head + Present(before)
    ensures (if f.on then argv + [f.arg] else argv) == head + Present(before + [f])
  {
    PresentConcat(before, [f]);
    assert Present([f]) == (if f.on then [f.arg] else []) + Present([]);
  }

  /** The keyword argument as the code writes it: a single-quoted literal, the same for every keyword. */
  const KeywordLiteral: string := "--keyword=$k"

  function KeywordArgs(keywords: seq<string>): (r: seq<string>)
    ensures |r| == |keywords|
    ensures forall i :: 0 <= i < |r| ==> r[i] == KeywordLiteral
  {
    seq(|keywords|, i => KeywordLiteral)
  }

  /** The keyword arguments with each keyword interpolated. */
  function KeywordArgsIntended(keywords: seq<string>): (r: seq<string>)
    ensures |r| == |keywords|
  {
    seq(|keywords|, i requires 0 <= i < |keywords| => "--keyword=" + keywords[i])
  }

  /** The first three arguments: binary, output file, language. */
  function Head(opts: Options, output: string): seq<string>
  {
    [XgettextBinary(opts), "--output=" + output, "--language=PHP"]
  }

  /** xgettext's argument vector as `fire` builds it. */
  function XgettextArgs(opts: Options, output: string, files: seq<string>): seq<string>
  {
    Head(opts, output) + Present(FlagTable(opts)) + KeywordArgs(opts.keywords) + files
  }

  /** The vector with the keywords interpolated. */
  function XgettextArgsIntended(opts: Options, output: string, files: seq<string>): seq<string>
  {
    Head(opts, output) + Present(FlagTable(opts)) + KeywordArgsIntended(opts.keywords) + files
  }

  /** Layout of the vector: three fixed arguments, the flags, one entry per keyword, then every file in order. */
  lemma XgettextArgsLayout(opts: Options, output: string, files: seq<string>)
    ensures var argv := XgettextArgs(opts, output, files);
      var f := |Present(FlagTable(opts))|;
      && |argv| == 3 + f + |opts.keywords| + |files|
      && f <= 8
      && argv[0] == XgettextBinary(opts)
      && argv[1] == "--output=" + output
      && argv[2] == "--language=PHP"
      && argv[3..3 + f] == Present(FlagTable(opts))
      && (forall j :: 3 + f <= j < 3 + f + |opts.keywords| ==> argv[j] == KeywordLiteral)
      && argv[3 + f + |opts.keywords|..] == files
  {
  }

  /** A flag that is on passes its argument. */
  lemma {:induction false} PresentHas(table: seq<Flag>, k: nat)
    requires k < |table| && table[k].on
    ensures table[k].arg in Present(table)
    decreases k
  {
    assert Present(table) == (if table[0].on then [table[0].arg] else []) + Present(table[1..]);
    if k > 0 {
      PresentHas(table[1..], k - 1);
    }
  }

  /** With the `force_po` option exactly `true`, xgettext is passed `--force-po`. */
  lemma ForcePoPassed(opts: Options, output: string, files: seq<string>)
    requires opts.forcePo == Bool(true)
    ensures "--force-po" in XgettextArgs(opts, output, files)
  {
    PresentHas(FlagTable(opts), 1);
    XgettextArgsLayout(opts, output, files);
    var argv := XgettextArgs(opts, output, files);
    var f := Present(FlagTable(opts));
    var j :| 0 <= j < |f| && f[j] == "--force-po";
    assert argv[3 + j] == argv[3..3 + |f|][j] == "--force-po";
  }

  // ------------------------------------------------------ reading a command line

  /** What xgettext is told by a command line: the option values it reads and its input files. */
  datatype Invocation = Invocation(
    output: Option<string>,
    language: Option<string>,
    addComments: Option<string>,
    forcePo: bool,
    noLocation: bool,
    fromCode: Option<string>,
    copyrightHolder: Option<string>,
    packageName: Option<string>,
    packageVersion: Option<string>,
    bugsAddress: Option<string>,
    keywords: seq<string>,
    inputs: seq<string>)

  const NoArgs: Invocation := Invocation(None, None, None, false, false, None, None, None, None, None, [], [])

  /** `arg` begins with `prefix`, stated character by character. */
  predicate Prefixed(arg: string, prefix: string)
  {
    |prefix| <= |arg| && forall i :: 0 <= i < |prefix| ==> arg[i] == prefix[i]
  }

  lemma PrefixedConcat(prefix: string, v: string)
    ensures Prefixed(prefix + v, prefix) && After(prefix + v, prefix) == v
  {
  }

  /** The value of a `--name=value` argument. */
  function After(arg: string, prefix: string): string
    requires Prefixed(arg, prefix)
  {
    arg[|prefix|..]
  }

  /** Reads one argument: an option sets its value, anything not starting with `--` is an input file. */
  function ReadArg(inv: Invocation, arg: string): Invocation
  {
    if !Prefixed(arg, "--") then inv.(inputs := inv.inputs + [arg])
    else if Prefixed(arg, "--output=") then inv.(output := Some(After(arg, "--output=")))
    else if Prefixed(arg, "--language=") then inv.(language := Some(After(arg, "--language=")))
    else if Prefixed(arg, "--add-comments=") then inv.(addComments := Some(After(arg, "--add-comments=")))
    else if arg == "--force-po" then inv.(forcePo := true)
    else if arg == "--no-location" then inv.(noLocation := true)
    else if Prefixed(arg, "--from-code=") then inv.(fromCode := Some(After(arg, "--from-code=")))
    else if Prefixed(arg, "--copyright-holder=") then inv.(copyrightHolder := Some(After(arg, "--copyright-holder=")))
    else if Prefixed(arg, "--package-name=") then inv.(packageName := Some(After(arg, "--package-name=")))
    else if Prefixed(arg, "--package-version=") then inv.(packageVersion := Some(After(arg, "--package-version=")))
    else if Prefixed(arg, "--msgid-bugs-address=") then inv.(bugsAddress := Some(After(arg, "--msgid-bugs-address=")))
    else if Prefixed(arg, "--keyword=") then inv.(keywords := inv.keywords + [After(arg, "--keyword=")])
    else inv
  }

  /** Reads arguments left to right. */
  function ReadArgs(inv: Invocation, args: seq<string>): Invocation
    decreases |args|
  {
    if |args| == 0 then inv else ReadArgs(ReadArg(inv, args[0]), args[1..])
  }

  /** What the configuration asks xgettext to do with `files`. */
  function Requested(opts: Options, output: string, files: seq<string>): Invocation
  {
    Invocation(
      Some(output),
      Some("PHP"),
      if Truthy(opts.comments) then Some(ToStr(opts.comments)) else None,
      opts.forcePo == Bool(true),
      Truthy(opts.noLocation),
      if Truthy(opts.fromCode) then Some(ToStr(opts.fromCode)) else None,
      if Truthy(opts.author) then Some(ToStr(opts.author)) else None,
      if Truthy(opts.packageName) then Some(ToStr(opts.packageName)) else None,
      if Truthy(opts.packageVersion) then Some(ToStr(opts.packageVersion)) else None,
      if Truthy(opts.email) then Some(ToStr(opts.email)) else None,
      opts.keywords,
      files)
  }

  /** No file name looks like an option. */
  predicate PlainFiles(files: seq<string>)
  {
    forall i :: 0 <= i < |files| ==> !Prefixed(files[i], "--")
  }
}

module ExtractionReading {
  import opened Wrappers
  import opened Php
  import opened Fs
  import opened Extraction

  lemma ReadOutputArg(inv: Invocation, v: string)
    ensures ReadArg(inv, "--output=" + v) == inv.(output := Some(v))
  {
    var a := "--output=" + v;
    assert a[2] == 'o';
    PrefixedConcat("--output=", v);
    assert Prefixed(a, "--");
  }

  lemma ReadLanguageArg(inv: Invocation, v: string)
    ensures ReadArg(inv, "--language=" + v) == inv.(language := Some(v))
  {
    var a := "--language=" + v;
    assert a[2] == 'l';
    PrefixedConcat("--language=", v);
    assert Prefixed(a, "--");
    assert !Prefixed(a, "--output=");
  }

  lemma ReadAddCommentsArg(inv: Invocation, v: string)
    ensures ReadArg(inv, "--add-comments=" + v) == inv.(addComments := Some(v))
  {
    var a := "--add-comments=" + v;
    assert a[2] == 'a';
    PrefixedConcat("--add-comments=", v);
    assert Prefixed(a, "--");
    assert !Prefixed(a, "--output=");
    assert !Prefixed(a, "--language=");
  }

  lemma ReadForcePoArg(inv: Invocation)
    ensures ReadArg(inv, "--force-po") == inv.(forcePo := true)
  {
    var a := "--force-po";
    assert a[2] == 'f' && a[3] == 'o';
    assert Prefixed(a, "--");
    assert !Prefixed(a, "--output=");
    assert !Prefixed(a, "--language=");
    assert !Prefixed(a, "--add-comments=");
  }

  lemma ReadNoLocationArg(inv: Invocation)
    ensures ReadArg(inv, "--no-location") == inv.(noLocation := true)
  {
    var a := "--no-location";
    assert a[2] == 'n';
    assert Prefixed(a, "--");
    assert !Prefixed(a, "--output=");
    assert !Prefixed(a, "--language=");
    assert !Prefixed(a, "--add-comments=");
    assert a != "--force-po";
  }

  lemma ReadFromCodeArg(inv: Invocation, v: string)
    ensures ReadArg(inv, "--from-code=" + v) == inv.(fromCode := Some(v))
  {
    var a := "--from-code=" + v;
    assert a[2] == 'f' && a[3] == 'r';
    PrefixedConcat("--from-code=", v);
    assert Prefixed(a, "--");
    assert !Prefixed(a, "--output=");
    assert !Prefixed(a, "--language=");
    assert !Prefixed(a, "--add-comments=");
    assert a != "--force-po";
    assert a != "--no-location";
  }

  lemma ReadCopyrightHolderArg(inv: Invocation, v: string)
    ensures ReadArg(inv, "--copyright-holder=" + v) == inv.(copyrightHolder := Some(v))
  {
    var a := "--copyright-holder=" + v;
    assert a[2] == 'c';
    PrefixedConcat("--copyright-holder=", v);
    assert Prefixed(a, "--");
    assert !Prefixed(a, "--output=");
    assert !Prefixed(a, "--language=");
    assert !Prefixed(a, "--add-comments=");
    assert a != "--force-po";
    assert a != "--no-location";
    assert !Prefixed(a, "--from-code=");
  }

  lemma ReadPackageNameArg(inv: Invocation, v: string)
    ensures ReadArg(inv, "--package-name=" + v) == inv.(packageName := Some(v))
  {
    var a := "--package-name=" + v;
    assert a[2] == 'p' && a[10] == 'n';
    PrefixedConcat("--package-name=", v);
    assert Prefixed(a, "--");
    assert !Prefixed(a, "--output=");
    assert !Prefixed(a, "--language=");
    assert !Prefixed(a, "--add-comments=");
    assert a != "--force-po";
    assert a != "--no-location";
    assert !Prefixed(a, "--from-code=");
    assert !Prefixed(a, "--copyright-holder=");
  }

  lemma ReadPackageVersionArg(inv: Invocation, v: string)
    ensures ReadArg(inv, "--package-version=" + v) == inv.(packageVersion := Some(v))
  {
    var a := "--package-version=" + v;
    assert a[2] == 'p' && a[10] == 'v';
    PrefixedConcat("--package-version=", v);
    assert Prefixed(a, "--");
    assert !Prefixed(a, "--output=");
    assert !Prefixed(a, "--language=");
    assert !Prefixed(a, "--add-comments=");
    assert a != "--force-po";
    assert a != "--no-location";
    assert !Prefixed(a, "--from-code=");
    assert !Prefixed(a, "--copyright-holder=");
    assert !Prefixed(a, "--package-name=");
  }

  lemma ReadBugsAddressArg(inv: Invocation, v: string)
    ensures ReadArg(inv, "--msgid-bugs-address=" + v) == inv.(bugsAddress := Some(v))
  {
    var a := "--msgid-bugs-address=" + v;
    assert a[2] == 'm';
    PrefixedConcat("--msgid-bugs-address=", v);
    assert Prefixed(a, "--");
    assert !Prefixed(a, "--output=");
    assert !Prefixed(a, "--language=");
    assert !Prefixed(a, "--add-comments=");
    assert a != "--force-po";
    assert a != "--no-location";
    assert !Prefixed(a, "--from-code=");
    assert !Prefixed(a, "--copyright-holder=");
    assert !Prefixed(a, "--package-name=");
    assert !Prefixed(a, "--package-version=");
  }

  lemma ReadKeywordArg(inv: Invocation, v: string)
    ensures ReadArg(inv, "--keyword=" + v) == inv.(keywords := inv.keywords + [v])
  {
    var a := "--keyword=" + v;
    assert a[2] == 'k';
    PrefixedConcat("--keyword=", v);
    assert Prefixed(a, "--");
    assert !Prefixed(a, "--output=");
    assert !Prefixed(a, "--language=");
    assert !Prefixed(a, "--add-comments=");
    assert a != "--force-po";
    assert a != "--no-location";
    assert !Prefixed(a, "--from-code=");
    assert !Prefixed(a, "--copyright-holder=");
    assert !Prefixed(a, "--package-name=");
    assert !Prefixed(a, "--package-version=");
    assert !Prefixed(a, "--msgid-bugs-address=");
  }

  /** Reading two runs of arguments is reading the first, then the second. */
  lemma {:induction false} ReadArgsConcat(inv: Invocation, a: seq<string>, b: seq<string>)
    ensures ReadArgs(inv, a + b) == ReadArgs(ReadArgs(inv, a), b)
    decreases |a|
  {
    if |a| == 0 {
      assert a + b == b;
    } else {
      assert (a + b)[0] == a[0];
      assert (a + b)[1..] == a[1..] + b;
      ReadArgsConcat(ReadArg(inv, a[0]), a[1..], b);
    }
  }

  /** Files that do not look like options are read as inputs, in order. */
  lemma {:induction false} ReadPlainFiles(inv: Invocation, files: seq<string>)
    requires PlainFiles(files)
    ensures ReadArgs(inv, files) == inv.(inputs := inv.inputs + files)
    decreases |files|
  {
    if |files| > 0 {
      assert PlainFiles(files[1..]) by {
        forall i | 0 <= i < |files[1..]| ensures !Prefixed(files[1..][i], "--") {
          assert files[1..][i] == files[i + 1];
        }
      }
      ReadPlainFiles(ReadArg(inv, files[0]), files[1..]);
      assert inv.inputs + [files[0]] + files[1..] == inv.inputs + files;
    }
  }

  /** The keyword arguments as written tell xgettext the keyword `$k`, once per configured keyword. */
  lemma {:induction false} ReadKeywordArgs(inv: Invocation, keywords: seq<string>)
    ensures ReadArgs(inv, KeywordArgs(keywords)) == inv.(keywords := inv.keywords + seq(|keywords|, i => "$k"))
    decreases |keywords|
  {
    if |keywords| > 0 {
      ReadKeywordArgsStep(inv, keywords);
      var next := inv.(keywords := inv.keywords + ["$k"]);
      ReadKeywordArgs(next, keywords[1..]);
      assert next.keywords + seq(|keywords| - 1, i => "$k") == inv.keywords + seq(|keywords|, i => "$k");
    }
  }

  /** The first literal keyword argument adds `$k` to the keywords. */
  lemma ReadKeywordArgsStep(inv: Invocation, keywords: seq<string>)
    requires |keywords| > 0
    ensures ReadArgs(inv, KeywordArgs(keywords)) ==
      ReadArgs(inv.(keywords := inv.keywords + ["$k"]), KeywordArgs(keywords[1..]))
  {
    var args := KeywordArgs(keywords);
    assert args[0] == "--keyword=" + "$k";
    ReadKeywordArg(inv, "$k");
    assert args[1..] == KeywordArgs(keywords[1..]);
  }

  /** The interpolated keyword arguments tell xgettext exactly the configured keywords. */
  lemma {:induction false} ReadKeywordArgsIntended(inv: Invocation, keywords: seq<string>)
    ensures ReadArgs(inv, KeywordArgsIntended(keywords)) == inv.(keywords := inv.keywords + keywords)
    decreases |keywords|
  {
    if |keywords| > 0 {
      ReadKeywordArgsIntendedStep(inv, keywords);
      var next := inv.(keywords := inv.keywords + [keywords[0]]);
      ReadKeywordArgsIntended(next, keywords[1..]);
      assert next.keywords + keywords[1..] == inv.keywords + keywords;
    }
  }

  /** The first interpolated keyword argument adds the first keyword. */
  lemma ReadKeywordArgsIntendedStep(inv: Invocation, keywords: seq<string>)
    requires |keywords| > 0
    ensures ReadArgs(inv, KeywordArgsIntended(keywords)) ==
      ReadArgs(inv.(keywords := inv.keywords + [keywords[0]]), KeywordArgsIntended(keywords[1..]))
  {
    var args := KeywordArgsIntended(keywords);
    assert args[0] == "--keyword=" + keywords[0];
    ReadKeywordArg(inv, keywords[0]);
    assert args[1..] == KeywordArgsIntended(keywords[1..]);
  }

  /** The arguments one flag contributes. */
  function Passed(f: Flag): seq<string>
  {
    if f.on then [f.arg] else []
  }

  /** Reading the passed flags of a table is reading its first entry's, then the rest. */
  lemma ReadPresentStep(inv: Invocation, t: seq<Flag>, k: nat)
    requires k < |t|
    ensures ReadArgs(inv, Present(t[k..])) == ReadArgs(ReadArgs(inv, Passed(t[k])), Present(t[k + 1..]))
  {
    assert t[k..][1..] == t[k + 1..];
    assert Present(t[k..]) == Passed(t[k]) + Present(t[k + 1..]);
    ReadArgsConcat(inv, Passed(t[k]), Present(t[k + 1..]));
  }

  lemma ReadPassed(inv: Invocation, f: Flag)
    ensures ReadArgs(inv, Passed(f)) == if f.on then ReadArg(inv, f.arg) else inv
  {
  }

  lemma ReadFlag0(inv: Invocation, opts: Options)
    ensures ReadArgs(inv, Present(FlagTable(opts)[0..])) == ReadArgs(inv.(addComments := if Truthy(opts.comments) then Some(ToStr(opts.comments)) else inv.addComments), Present(FlagTable(opts)[1..]))
  {
    var t := FlagTable(opts);
    ReadPresentStep(inv, t, 0);
    ReadPassed(inv, t[0]);
    ReadAddCommentsArg(inv, ToStr(opts.comments));
  }

  lemma ReadFlag1(inv: Invocation, opts: Options)
    ensures ReadArgs(inv, Present(FlagTable(opts)[1..])) == ReadArgs(inv.(forcePo := if opts.forcePo == Bool(true) then true else inv.forcePo), Present(FlagTable(opts)[2..]))
  {
    var t := FlagTable(opts);
    ReadPresentStep(inv, t, 1);
    ReadPassed(inv, t[1]);
    ReadForcePoArg(inv);
  }

  lemma ReadFlag2(inv: Invocation, opts: Options)
    ensures ReadArgs(inv, Present(FlagTable(opts)[2..])) == ReadArgs(inv.(noLocation := if Truthy(opts.noLocation) then true else inv.noLocation), Present(FlagTable(opts)[3..]))
  {
    var t := FlagTable(opts);
    ReadPresentStep(inv, t, 2);
    ReadPassed(inv, t[2]);
    ReadNoLocationArg(inv);
  }

  lemma ReadFlag3(inv: Invocation, opts: Options)
    ensures ReadArgs(inv, Present(FlagTable(opts)[3..])) == ReadArgs(inv.(fromCode := if Truthy(opts.fromCode) then Some(ToStr(opts.fromCode)) else inv.fromCode), Present(FlagTable(opts)[4..]))
  {
    var t := FlagTable(opts);
    ReadPresentStep(inv, t, 3);
    ReadPassed(inv, t[3]);
    ReadFromCodeArg(inv, ToStr(opts.fromCode));
  }

  lemma ReadFlag4(inv: Invocation, opts: Options)
    ensures ReadArgs(inv, Present(FlagTable(opts)[4..])) == ReadArgs(inv.(copyrightHolder := if Truthy(opts.author) then Some(ToStr(opts.author)) else inv.copyrightHolder), Present(FlagTable(opts)[5..]))
  {
    var t := FlagTable(opts);
    ReadPresentStep(inv, t, 4);
    ReadPassed(inv, t[4]);
    ReadCopyrightHolderArg(inv, ToStr(opts.author));
  }

  lemma ReadFlag5(inv: Invocation, opts: Options)
    ensures ReadArgs(inv, Present(FlagTable(opts)[5..])) == ReadArgs(inv.(packageName := if Truthy(opts.packageName) then Some(ToStr(opts.packageName)) else inv.packageName), Present(FlagTable(opts)[6..]))
  {
    var t := FlagTable(opts);
    ReadPresentStep(inv, t, 5);
    ReadPassed(inv, t[5]);
    ReadPackageNameArg(inv, ToStr(opts.packageName));
  }

  lemma ReadFlag6(inv: Invocation, opts: Options)
    ensures ReadArgs(inv, Present(FlagTable(opts)[6..])) == ReadArgs(inv.(packageVersion := if Truthy(opts.packageVersion) then Some(ToStr(opts.packageVersion)) else inv.packageVersion), Present(FlagTable(opts)[7..]))
  {
    var t := FlagTable(opts);
    ReadPresentStep(inv, t, 6);
    ReadPassed(inv, t[6]);
    ReadPackageVersionArg(inv, ToStr(opts.packageVersion));
  }

  lemma ReadFlag7(inv: Invocation, opts: Options)
    ensures ReadArgs(inv, Present(FlagTable(opts)[7..])) == ReadArgs(inv.(bugsAddress := if Truthy(opts.email) then Some(ToStr(opts.email)) else inv.bugsAddress), Present(FlagTable(opts)[8..]))
  {
    var t := FlagTable(opts);
    ReadPresentStep(inv, t, 7);
    ReadPassed(inv, t[7]);
    ReadBugsAddressArg(inv, ToStr(opts.email));
  }

  /** The first four optional flags. */
  lemma ReadFirstFlags(inv: Invocation, opts: Options)
    ensures ReadArgs(inv, Present(FlagTable(opts))) == ReadArgs(inv.(
      addComments := if Truthy(opts.comments) then Some(ToStr(opts.comments)) else inv.addComments,
      forcePo := if opts.forcePo == Bool(true) then true else inv.forcePo,
      noLocation := if Truthy(opts.noLocation) then true else inv.noLocation,
      fromCode := if Truthy(opts.fromCode) then Some(ToStr(opts.fromCode)) else inv.fromCode), Present(FlagTable(opts)[4..]))
  {
    assert FlagTable(opts)[0..] == FlagTable(opts);
    ReadFlag0(inv, opts);
    var i1 := inv.(addComments := if Truthy(opts.comments) then Some(ToStr(opts.comments)) else inv.addComments);
    ReadFlag1(i1, opts);
    var i2 := i1.(forcePo := if opts.forcePo == Bool(true) then true else i1.forcePo);
    ReadFlag2(i2, opts);
    var i3 := i2.(noLocation := if Truthy(opts.noLocation) then true else i2.noLocation);
    ReadFlag3(i3, opts);
    var i4 := i3.(fromCode := if Truthy(opts.fromCode) then Some(ToStr(opts.fromCode)) else i3.fromCode);
  }

  /** The last four optional flags. */
  lemma ReadLastFlags(inv: Invocation, opts: Options)
    ensures ReadArgs(inv, Present(FlagTable(opts)[4..])) == inv.(
      copyrightHolder := if Truthy(opts.author) then Some(ToStr(opts.author)) else inv.copyrightHolder,
      packageName := if Truthy(opts.packageName) then Some(ToStr(opts.packageName)) else inv.packageName,
      packageVersion := if Truthy(opts.packageVersion) then Some(ToStr(opts.packageVersion)) else inv.packageVersion,
      bugsAddress := if Truthy(opts.email) then Some(ToStr(opts.email)) else inv.bugsAddress)
  {
    ReadFlag4(inv, opts);
    var i5 := inv.(copyrightHolder := if Truthy(opts.author) then Some(ToStr(opts.author)) else inv.copyrightHolder);
    ReadFlag5(i5, opts);
    var i6 := i5.(packageName := if Truthy(opts.packageName) then Some(ToStr(opts.packageName)) else i5.packageName);
    ReadFlag6(i6, opts);
    var i7 := i6.(packageVersion := if Truthy(opts.packageVersion) then Some(ToStr(opts.packageVersion)) else i6.packageVersion);
    ReadFlag7(i7, opts);
    var i8 := i7.(bugsAddress := if Truthy(opts.email) then Some(ToStr(opts.email)) else i7.bugsAddress);
    assert FlagTable(opts)[8..] == [];
  }

  /** The optional flags tell xgettext exactly the option values that are set. */
  lemma ReadFlags(inv: Invocation, opts: Options)
    ensures ReadArgs(inv, Present(FlagTable(opts))) == inv.(
      addComments := if Truthy(opts.comments) then Some(ToStr(opts.comments)) else inv.addComments,
      forcePo := if opts.forcePo == Bool(true) then true else inv.forcePo,
      noLocation := if Truthy(opts.noLocation) then true else inv.noLocation,
      fromCode := if Truthy(opts.fromCode) then Some(ToStr(opts.fromCode)) else inv.fromCode,
      copyrightHolder := if Truthy(opts.author) then Some(ToStr(opts.author)) else inv.copyrightHolder,
      packageName := if Truthy(opts.packageName) then Some(ToStr(opts.packageName)) else inv.packageName,
      packageVersion := if Truthy(opts.packageVersion) then Some(ToStr(opts.packageVersion)) else inv.packageVersion,
      bugsAddress := if Truthy(opts.email) then Some(ToStr(opts.email)) else inv.bugsAddress)
  {
    ReadFirstFlags(inv, opts);
    var mid := inv.(
      addComments := if Truthy(opts.comments) then Some(ToStr(opts.comments)) else inv.addComments,
      forcePo := if opts.forcePo == Bool(true) then true else inv.forcePo,
      noLocation := if Truthy(opts.noLocation) then true else inv.noLocation,
      fromCode := if Truthy(opts.fromCode) then Some(ToStr(opts.fromCode)) else inv.fromCode);
    ReadLastFlags(mid, opts);
  }

  /** The three fixed arguments after the binary tell xgettext the output file and the language. */
  lemma ReadHead(opts: Options, output: string)
    ensures ReadArgs(NoArgs, Head(opts, output)[1..]) == NoArgs.(output := Some(output), language := Some("PHP"))
  {
    var h := Head(opts, output)[1..];
    assert "--language=" + "PHP" == "--language=PHP";
    ReadOutputArg(NoArgs, output);
    var i1 := NoArgs.(output := Some(output));
    ReadLanguageArg(i1, "PHP");
    assert h == ["--output=" + output] + ["--language=PHP"];
    ReadArgsConcat(NoArgs, ["--output=" + output], ["--language=PHP"]);
  }

  /**
   * Reading back the vector `fire` builds recovers the requested output file,
   * language, option values and file list; the keywords come back as `$k`,
   * once per configured keyword, whatever the keywords are.
   */
  lemma XgettextArgsRead(opts: Options, output: string, files: seq<string>)
    requires PlainFiles(files)
    ensures ReadArgs(NoArgs, XgettextArgs(opts, output, files)[1..])
      == Requested(opts, output, files).(keywords := seq(|opts.keywords|, i => "$k"))
  {
    var h := Head(opts, output);
    var f := Present(FlagTable(opts));
    var k := KeywordArgs(opts.keywords);
    assert XgettextArgs(opts, output, files)[1..] == h[1..] + f + k + files;
    ReadArgsConcat(NoArgs, h[1..] + f + k, files);
    ReadArgsConcat(NoArgs, h[1..] + f, k);
    ReadArgsConcat(NoArgs, h[1..], f);
    ReadHead(opts, output);
    var i1 := NoArgs.(output := Some(output), language := Some("PHP"));
    ReadFlags(i1, opts);
    var i2 := ReadArgs(i1, f);
    ReadKeywordArgs(i2, opts.keywords);
    var i3 := ReadArgs(i2, k);
    ReadPlainFiles(i3, files);
  }

  /** With the keywords interpolated, reading back the vector recovers exactly what was requested. */
  lemma XgettextArgsIntendedRead(opts: Options, output: string, files: seq<string>)
    requires PlainFiles(files)
    ensures ReadArgs(NoArgs, XgettextArgsIntended(opts, output, files)[1..]) == Requested(opts, output, files)
  {
    var h := Head(opts, output);
    var f := Present(FlagTable(opts));
    var k := KeywordArgsIntended(opts.keywords);
    assert XgettextArgsIntended(opts, output, files)[1..] == h[1..] + f + k + files;
    ReadArgsConcat(NoArgs, h[1..] + f + k, files);
    ReadArgsConcat(NoArgs, h[1..] + f, k);
    ReadArgsConcat(NoArgs, h[1..], f);
    ReadHead(opts, output);
    var i1 := NoArgs.(output := Some(output), language := Some("PHP"));
    ReadFlags(i1, opts);
    var i2 := ReadArgs(i1, f);
    ReadKeywordArgsIntended(i2, opts.keywords);
    var i3 := ReadArgs(i2, k);
    ReadPlainFiles(i3, files);
  }

  /**
   * The first two keywords of the default configuration show the discrepancy: the
   * vector as written asks for `$k` twice where `_` and `gettext` were meant.
   */
  lemma KeywordLiteralLosesKeywords(opts: Options, output: string)
    requires opts.keywords == ["_", "gettext"]
    ensures ReadArgs(NoArgs, XgettextArgs(opts, output, [])[1..]).keywords == ["$k", "$k"]
    ensures ReadArgs(NoArgs, XgettextArgsIntended(opts, output, [])[1..]).keywords == ["_", "gettext"]
  {
    XgettextArgsRead(opts, output, []);
    XgettextArgsIntendedRead(opts, output, []);
    assert seq(2, i => "$k") == ["$k", "$k"];
  }
}
