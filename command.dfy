/**
 * The `gettext` console command (`GettextCommand`): the object that
 * holds the process builder and drives the filesystem. Each method is
 * proved against the functions of `Extraction`, `Merging` and `Pipeline`.
 */
module Command {
  import opened Wrappers
  import opened Php
  import opened Fs
  import opened Process
  import opened Extraction
  import opened Merging
  import opened Pipeline

  class GettextCommand {
    /** The filesystem behind the `File` facade. */
    const fs: Filesystem
    /** `app_path()`. */
    const app: string
    /** The console options, defaulted from the configuration. */
    const opts: Options
    const config: Config
    const blade: Blade
    /** What a process does when run with an argument vector. */
    const exec: seq<string> -> ProcessResult
    /** The arguments last handed to the process builder. */
    var arguments: seq<string>
    /** Every argument vector a process was run with, in order. */
    var runs: seq<seq<string>>

    /** The process builder holds the arguments of the last process run. */
    ghost predicate Valid()
      reads this
    {
      arguments == if runs == [] then [] else runs[|runs| - 1]
    }

    constructor (fs: Filesystem, app: string, opts: Options, config: Config, blade: Blade,
                 exec: seq<string> -> ProcessResult)
      ensures this.fs == fs && this.app == app && this.opts == opts && this.config == config
      ensures this.blade == blade && this.exec == exec
      ensures runs == [] && Valid()
    {
      this.fs := fs;
      this.app := app;
      this.opts := opts;
      this.config := config;
      this.blade := blade;
      this.exec := exec;
      arguments := [];
      runs := [];
    }

    /** `setArguments` then `run`: on success the process has written its output file, if it wrote one. */
    method RunProcess(argv: seq<string>, output: string) returns (res: ProcessResult)
      requires Valid()
      modifies this, fs
      ensures Valid()
      ensures res == exec(argv) && runs == old(runs) + [argv]
      ensures fs.files == AfterRun(old(fs.files), output, res)
      ensures fs.dirs == old(fs.dirs)
    {
      arguments := argv;
      runs := runs + [argv];
      res := exec(argv);
      if IsSuccessful(res) && res.written.Some? {
        fs.Put(output, res.written.value);
      }
    }

    /** `compile`: every Blade view among `views`, in order, compiled into the cache folder. */
    method Compile(views: seq<string>, cacheFolder: string)
      requires forall v :: v in views ==> v in fs.files
      modifies fs
      ensures fs.files == CompileAll(old(fs.files), blade, cacheFolder, Blades(views))
      ensures fs.dirs == old(fs.dirs)
    {
      var blades := Blades(views);
      for i := 0 to |blades|
        invariant forall v :: v in blades ==> v in fs.files
        invariant CompileAll(fs.files, blade, cacheFolder, blades[i..]) == CompileAll(old(fs.files), blade, cacheFolder, blades)
        invariant fs.dirs == old(fs.dirs)
      {
        var view := blades[i];
        assert blades[i..][1..] == blades[i + 1..];
        fs.Put(CompiledPath(blade, cacheFolder, view), blade.compileString(fs.files[view]));
      }
      assert blades[|blades|..] == [];
    }

    /**
     * The file list of `fire`: the views that are not Blade templates, the
     * listing of the cache folder, then the listing of each additional folder.
     */
    method CollectFiles(views: seq<string>, cacheFolder: string)
      returns (files: seq<string>, ghost cacheFiles: seq<string>, ghost extra: seq<seq<string>>)
      ensures IsListing(fs.files, cacheFolder, cacheFiles)
      ensures |extra| == |AdditionalPaths(opts.additional)|
      ensures forall i :: 0 <= i < |extra| ==>
        IsListing(fs.files, AdditionalFolder(app, AdditionalPaths(opts.additional)[i]), extra[i])
      ensures files == FileList(views, cacheFiles, extra)
    {
      var cacheListing := fs.AllFiles(cacheFolder);
      cacheFiles := cacheListing;
      files := NonBlades(views) + cacheListing;
      var paths := AdditionalPaths(opts.additional);
      extra := [];
      if |paths| > 0 {
        var additionalFiles: seq<string> := [];
        for i := 0 to |paths|
          invariant |extra| == i
          invariant forall j :: 0 <= j < i ==> IsListing(fs.files, AdditionalFolder(app, paths[j]), extra[j])
          invariant additionalFiles == Flatten(extra)
        {
          var listing := fs.AllFiles(AdditionalFolder(app, paths[i]));
          additionalFiles := additionalFiles + listing;
          extra := extra + [listing];
          assert extra[..|extra| - 1] == extra[..i];
        }
        files := files + additionalFiles;
      }
    }

    /** Appends the flag's argument when the flag is on, as each `if` of `fire` does. */
    static method AppendWhen(argv: seq<string>, ghost head: seq<string>, ghost before: seq<Flag>, f: Flag) returns (r: seq<string>)
      requires argv == head + Present(before)
      ensures r == head + Present(before + [f])
    {
      AppendFlag(argv, head, before, f);
      r := argv;
      if f.on {
        r := r + [f.arg];
      }
    }

    /** The argument vector of xgettext, appended to one argument at a time as `fire` does. */
    method BuildXgettextArguments(output: string, files: seq<string>) returns (argv: seq<string>)
      ensures argv == XgettextArgs(opts, output, files)
    {
      argv := [];
      argv := argv + [XgettextBinary(opts)];
      argv := argv + ["--output=" + output];
      argv := argv + ["--language=PHP"];
      ghost var head := argv;
      ghost var tested: seq<Flag> := [];
      argv := AppendWhen(argv, head, tested, Flag(Truthy(opts.comments), "--add-comments=" + ToStr(opts.comments)));
      tested := tested + [Flag(Truthy(opts.comments), "--add-comments=" + ToStr(opts.comments))];
      argv := AppendWhen(argv, head, tested, Flag(opts.forcePo == Bool(true), "--force-po"));
      tested := tested + [Flag(opts.forcePo == Bool(true), "--force-po")];
      argv := AppendWhen(argv, head, tested, Flag(Truthy(opts.noLocation), "--no-location"));
      tested := tested + [Flag(Truthy(opts.noLocation), "--no-location")];
      argv := AppendWhen(argv, head, tested, Flag(Truthy(opts.fromCode), "--from-code=" + ToStr(opts.fromCode)));
      tested := tested + [Flag(Truthy(opts.fromCode), "--from-code=" + ToStr(opts.fromCode))];
      argv := AppendWhen(argv, head, tested, Flag(Truthy(opts.author), "--copyright-holder=" + ToStr(opts.author)));
      tested := tested + [Flag(Truthy(opts.author), "--copyright-holder=" + ToStr(opts.author))];
      argv := AppendWhen(argv, head, tested, Flag(Truthy(opts.packageName), "--package-name=" + ToStr(opts.packageName)));
      tested := tested + [Flag(Truthy(opts.packageName), "--package-name=" + ToStr(opts.packageName))];
      argv := AppendWhen(argv, head, tested, Flag(Truthy(opts.packageVersion), "--package-version=" + ToStr(opts.packageVersion)));
      tested := tested + [Flag(Truthy(opts.packageVersion), "--package-version=" + ToStr(opts.packageVersion))];
      argv := AppendWhen(argv, head, tested, Flag(Truthy(opts.email), "--msgid-bugs-address=" + ToStr(opts.email)));
      tested := tested + [Flag(Truthy(opts.email), "--msgid-bugs-address=" + ToStr(opts.email))];
      assert tested == FlagTable(opts);
      ghost var flagged := argv;
      for i := 0 to |opts.keywords|
        invariant argv == flagged + KeywordArgs(opts.keywords[..i])
      {
        argv := argv + [KeywordLiteral];
        assert KeywordArgs(opts.keywords[..i + 1]) == KeywordArgs(opts.keywords[..i]) + [KeywordLiteral];
      }
      assert opts.keywords[..|opts.keywords|] == opts.keywords;
      argv := argv + files;
    }

    /** One pass of the loop in `merge`, for one locale. */
    method MergeLocaleStep(output: string, binary: string, path: string, locale: Scalar)
      returns (failure: Option<CommandError>)
      requires Valid()
      modifies this, fs
      ensures Valid()
      ensures Step(failure, Disk(fs.files, fs.dirs, runs)) ==
        MergeLocale(Disk(old(fs.files), old(fs.dirs), old(runs)), output, binary, path, config.textdomain, locale, exec)
    {
      var tempFile := "temp.pot";
      var localeDir := LocaleDir(path, locale);
      var textdomainFile := TextdomainFile(localeDir, config.textdomain);
      if !fs.IsDirectory(localeDir) {
        fs.MakeDirectory(localeDir);
      }
      assert fs.dirs == old(fs.dirs) + {localeDir};
      if !fs.Exists(textdomainFile) {
        var copied := fs.Copy(output, textdomainFile);
        assert fs.files == CopyFile(old(fs.files), output, textdomainFile);
        assert runs == old(runs);
        return None;
      }
      var copied := fs.Copy(output, localeDir + tempFile);
      var args := [localeDir + "messages.pot", localeDir + "temp.pot", "--output-file=" + textdomainFile];
      ghost var d1 := Disk(old(fs.files), old(fs.dirs), old(runs)).(dirs := old(fs.dirs) + {localeDir});
      assert textdomainFile in d1.files;
      assert fs.files == CopyFile(d1.files, output, TempFile(localeDir));
      assert [binary] + args == MsgmergeArgs(binary, localeDir, textdomainFile);
      var res := RunProcess([binary] + args, textdomainFile);
      if IsSuccessful(res) {
        var deleted := fs.Delete(localeDir + tempFile);
        failure := None;
      } else {
        failure := Some(MsgmergeFailed(res.exitCode, [binary] + args));
      }
    }

    /** `merge`: every configured locale but the first, in order, stopping at the first failure of msgmerge. */
    method Merge(output: string) returns (failure: Option<CommandError>)
      requires Valid()
      modifies this, fs
      ensures Valid()
      ensures Step(failure, Disk(fs.files, fs.dirs, runs)) ==
        MergeAll(Disk(old(fs.files), old(fs.dirs), old(runs)), output,
                 MsgmergeBinary(config.msgmergeBinary, config.msgmergeBinaryPath),
                 LocaleRoot(app, config.path), config.textdomain, MergedLocales(config.locales), exec)
    {
      var path := LocaleRoot(app, config.path);
      var locales := Wrap(config.locales);
      if |locales| > 0 {
        locales := locales[1..];
      }
      assert locales == MergedLocales(config.locales);
      var binary := MsgmergeBinary(config.msgmergeBinary, config.msgmergeBinaryPath);
      ghost var d0 := Disk(fs.files, fs.dirs, runs);
      assert locales[..0] == [];
      if |locales| > 0 {
        for i := 0 to |locales|
          invariant Valid()
          invariant MergeAll(d0, output, binary, path, config.textdomain, locales[..i], exec)
                 == Step(None, Disk(fs.files, fs.dirs, runs))
        {
          MergeAllSnoc(d0, output, binary, path, config.textdomain, locales[..i], locales[i], exec);
          assert locales[..i] + [locales[i]] == locales[..i + 1];
          failure := MergeLocaleStep(output, binary, path, locales[i]);
          if failure.Some? {
            MergeAllStopsAtFailure(d0, output, binary, path, config.textdomain, locales, i + 1, exec);
            return;
          }
        }
      }
      assert locales[..|locales|] == locales;
      failure := None;
    }

    /** `cleanup`: every file the listing of the cache folder returns, deleted. */
    method Cleanup()
      modifies fs
      ensures fs.files == WithoutListed(old(fs.files), CacheFolder(app, opts))
      ensures fs.dirs == old(fs.dirs)
    {
      var cache := CacheFolder(app, opts);
      var views := fs.AllFiles(cache);
      for i := 0 to |views|
        invariant fs.dirs == old(fs.dirs)
        invariant forall p :: p in fs.files <==> p in old(fs.files) && p !in views[..i]
        invariant forall p :: p in fs.files ==> fs.files[p] == old(fs.files)[p]
      {
        assert views[..i + 1] == views[..i] + [views[i]];
        var deleted := fs.Delete(views[i]);
      }
      assert views[..|views|] == views;
    }

    /**
     * `fire`. The ghost outputs are the listings the filesystem returned;
     * the outcome is `FireOutcome` of the initial state and those listings.
     */
    method Fire() returns (failure: Option<CommandError>,
                           ghost views: seq<string>, ghost cacheFiles: seq<string>, ghost extra: seq<seq<string>>)
      requires Valid()
      modifies this, fs
      ensures Valid()
      ensures Listed(old(fs.files), app, opts, blade, views, cacheFiles, extra)
      ensures Step(failure, Disk(fs.files, fs.dirs, runs)) ==
        FireOutcome(Disk(old(fs.files), old(fs.dirs), old(runs)), app, opts, config, blade, exec, views, cacheFiles, extra)
    {
      var viewsFolder := ViewsFolder(app);
      var cacheFolder := CacheFolder(app, opts);
      var allViews := fs.AllFiles(viewsFolder);
      views := allViews;
      Compile(allViews, cacheFolder);
      var files;
      files, cacheFiles, extra := CollectFiles(allViews, cacheFolder);
      if |files| < 1 {
        failure := Some(NoViewsFound(viewsFolder, cacheFolder));
        return;
      }
      var output := OutputFile(app, config.path, config.textdomain);
      var xgettext := BuildXgettextArguments(output, files);
      var res := RunProcess(xgettext, output);
      if !IsSuccessful(res) {
        failure := Some(XgettextFailed(res.exitCode, xgettext));
        return;
      }
      failure := None;
      if Truthy(opts.msgmerge) {
        failure := Merge(output);
        if failure.Some? {
          return;
        }
      }
      if Truthy(opts.cleanup) {
        Cleanup();
      }
    }
  }
}
