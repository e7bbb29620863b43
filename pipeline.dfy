/**
 * `GettextCommand::fire` end to end, as a function of the initial state and
 * of the listings the filesystem returns: compile the Blade views, collect
 * the files, run xgettext, merge the locales, clean the cache. The method
 * `Command.GettextCommand.Fire` is proved equal to `FireOutcome`.
 */
module Pipeline {
  import opened Wrappers
  import opened Php
  import opened Fs
  import opened Process
  import opened Extraction
  import opened Merging

  /** The package configuration read by the command (`gettext::config`). */
  datatype Config = Config(
    path: string,
    textdomain: string,
    locales: Value,
    msgmergeBinary: Scalar,
    msgmergeBinaryPath: Scalar)

  /** The template xgettext writes, `<app>/<path>/<textdomain>.pot`. */
  function TemplateFile(app: string, config: Config): string
  {
    OutputFile(app, config.path, config.textdomain)
  }

  /** `files` without every file a listing of `dir` returns. */
  function WithoutListed(files: map<string, string>, dir: string): (r: map<string, string>)
    ensures forall p :: p in r <==> p in files && !Visible(dir, p)
    ensures forall p :: p in r ==> r[p] == files[p]
  {
    map p | p in files && !Visible(dir, p) :: files[p]
  }

  /** The files after compiling the Blade views among `views` into the cache folder. */
  function Compiled(files: map<string, string>, app: string, opts: Options, blade: Blade, views: seq<string>): map<string, string>
    requires forall v :: v in views ==> v in files
  {
    CompileAll(files, blade, CacheFolder(app, opts), Blades(views))
  }

  /**
   * The listings are those of the filesystem: `views` lists the views folder
   * before compiling, `cacheFiles` the cache folder after it, and `extra[i]`
   * the i-th additional folder.
   */
  predicate Listed(files: map<string, string>, app: string, opts: Options, blade: Blade,
                   views: seq<string>, cacheFiles: seq<string>, extra: seq<seq<string>>)
  {
    && IsListing(files, ViewsFolder(app), views)
    && var compiled := Compiled(files, app, opts, blade, views);
    && IsListing(compiled, CacheFolder(app, opts), cacheFiles)
    && |extra| == |AdditionalPaths(opts.additional)|
    && forall i :: 0 <= i < |extra| ==>
         IsListing(compiled, AdditionalFolder(app, AdditionalPaths(opts.additional)[i]), extra[i])
  }

  /** No listing of the views folder, the cache folder or an additional folder would return a file. */
  predicate NoSources(files: map<string, string>, app: string, opts: Options)
  {
    forall p :: p in files ==>
      && !Visible(ViewsFolder(app), p)
      && !Visible(CacheFolder(app, opts), p)
      && forall i :: 0 <= i < |AdditionalPaths(opts.additional)| ==>
           !Visible(AdditionalFolder(app, AdditionalPaths(opts.additional)[i]), p)
  }

  /** Everything `fire` does before the cleanup. */
  function Extract(d: Disk, app: string, opts: Options, config: Config, blade: Blade, exec: seq<string> -> ProcessResult,
                   views: seq<string>, cacheFiles: seq<string>, extra: seq<seq<string>>): Step
    requires forall v :: v in views ==> v in d.files
  {
    var compiled := d.(files := Compiled(d.files, app, opts, blade, views));
    var files := FileList(views, cacheFiles, extra);
    if |files| < 1 then Step(Some(NoViewsFound(ViewsFolder(app), CacheFolder(app, opts))), compiled)
    else
      var output := TemplateFile(app, config);
      var argv := XgettextArgs(opts, output, files);
      var res := exec(argv);
      var ran := compiled.(runs := compiled.runs + [argv]);
      if !IsSuccessful(res) then Step(Some(XgettextFailed(res.exitCode, argv)), ran)
      else
        var extracted := ran.(files := AfterRun(ran.files, output, res));
        if Truthy(opts.msgmerge) then
          MergeAll(extracted, output, MsgmergeBinary(config.msgmergeBinary, config.msgmergeBinaryPath),
                   LocaleRoot(app, config.path), config.textdomain, MergedLocales(config.locales), exec)
        else Step(None, extracted)
  }

  /** `fire`: the extraction, then the cleanup of the cache folder when asked for and nothing failed. */
  function FireOutcome(d: Disk, app: string, opts: Options, config: Config, blade: Blade, exec: seq<string> -> ProcessResult,
                       views: seq<string>, cacheFiles: seq<string>, extra: seq<seq<string>>): Step
    requires forall v :: v in views ==> v in d.files
  {
    var s := Extract(d, app, opts, config, blade, exec, views, cacheFiles, extra);
    if s.failure.None? && Truthy(opts.cleanup) then
      Step(None, s.disk.(files := WithoutListed(s.disk.files, CacheFolder(app, opts))))
    else s
  }

  /** Every listing of `extra` is empty exactly when their concatenation is. */
  lemma FlattenEmpty(extra: seq<seq<string>>)
    ensures Flatten(extra) == [] <==> forall i :: 0 <= i < |extra| ==> extra[i] == []
  {
    if Flatten(extra) != [] {
      assert Flatten(extra)[0] in Flatten(extra);
    }
    forall i | 0 <= i < |extra| && extra[i] != []
      ensures Flatten(extra) != []
    {
      assert extra[i][0] in extra[i];
    }
  }

  /** With no sources, every listing is empty and nothing gets compiled. */
  lemma NoSourcesNoFiles(files: map<string, string>, app: string, opts: Options, blade: Blade,
                         views: seq<string>, cacheFiles: seq<string>, extra: seq<seq<string>>)
    requires Listed(files, app, opts, blade, views, cacheFiles, extra)
    requires NoSources(files, app, opts)
    ensures views == [] && FileList(views, cacheFiles, extra) == []
  {
    var paths := AdditionalPaths(opts.additional);
    ListingEmpty(files, ViewsFolder(app), views);
    assert Compiled(files, app, opts, blade, views) == files;
    ListingEmpty(files, CacheFolder(app, opts), cacheFiles);
    forall i | 0 <= i < |extra|
      ensures extra[i] == []
    {
      ListingEmpty(files, AdditionalFolder(app, paths[i]), extra[i]);
    }
    FlattenEmpty(extra);
  }

  /** An empty file list means no sources: a Blade view would have left its compiled form in the cache listing. */
  lemma NoFilesNoSources(files: map<string, string>, app: string, opts: Options, blade: Blade,
                         views: seq<string>, cacheFiles: seq<string>, extra: seq<seq<string>>)
    requires Listed(files, app, opts, blade, views, cacheFiles, extra)
    requires FileList(views, cacheFiles, extra) == []
    ensures NoSources(files, app, opts)
  {
    var cache := CacheFolder(app, opts);
    var paths := AdditionalPaths(opts.additional);
    var compiled := Compiled(files, app, opts, blade, views);
    assert NonBlades(views) == [] && cacheFiles == [];
    forall v | v in views
      ensures false
    {
      if IsBlade(v) {
        CompiledListed(blade, cache, v);
      }
    }
    assert views == [];
    assert compiled == files;
    FlattenEmpty(extra);
    forall p | p in files
      ensures && !Visible(ViewsFolder(app), p) && !Visible(cache, p)
              && forall i :: 0 <= i < |paths| ==> !Visible(AdditionalFolder(app, paths[i]), p)
    {
      forall i | 0 <= i < |paths|
        ensures !Visible(AdditionalFolder(app, paths[i]), p)
      {
        assert extra[i] == [];
      }
    }
  }

  /**
   * No sources: `fire` raises NoViewsFound exactly when no file lies in the
   * views, cache or additional folders, and then it has run nothing and
   * changed nothing.
   */
  lemma FireNoSources(d: Disk, app: string, opts: Options, config: Config, blade: Blade, exec: seq<string> -> ProcessResult,
                      views: seq<string>, cacheFiles: seq<string>, extra: seq<seq<string>>)
    requires Listed(d.files, app, opts, blade, views, cacheFiles, extra)
    ensures var r := FireOutcome(d, app, opts, config, blade, exec, views, cacheFiles, extra);
      && (r.failure == Some(NoViewsFound(ViewsFolder(app), CacheFolder(app, opts))) <==> NoSources(d.files, app, opts))
      && (NoSources(d.files, app, opts) ==> r.disk == d)
  {
    var r := FireOutcome(d, app, opts, config, blade, exec, views, cacheFiles, extra);
    var output := TemplateFile(app, config);
    var argv := XgettextArgs(opts, output, FileList(views, cacheFiles, extra));
    var ran := d.(files := Compiled(d.files, app, opts, blade, views), runs := d.runs + [argv]);
    MergeAllFailsInMsgmerge(ran.(files := AfterRun(ran.files, output, exec(argv))), output,
                            MsgmergeBinary(config.msgmergeBinary, config.msgmergeBinaryPath),
                            LocaleRoot(app, config.path), config.textdomain, MergedLocales(config.locales), exec);
    assert r.failure == Some(NoViewsFound(ViewsFolder(app), CacheFolder(app, opts))) <==> FileList(views, cacheFiles, extra) == [];
    if NoSources(d.files, app, opts) {
      NoSourcesNoFiles(d.files, app, opts, blade, views, cacheFiles, extra);
      assert Compiled(d.files, app, opts, blade, views) == d.files;
    }
    if FileList(views, cacheFiles, extra) == [] {
      NoFilesNoSources(d.files, app, opts, blade, views, cacheFiles, extra);
    }
  }

  /**
   * Once files are found, the first process `fire` runs is xgettext on the
   * command line built from the options and the file list, and the earlier
   * runs stay as they were.
   */
  lemma FireRunsXgettextFirst(d: Disk, app: string, opts: Options, config: Config, blade: Blade,
                              exec: seq<string> -> ProcessResult,
                              views: seq<string>, cacheFiles: seq<string>, extra: seq<seq<string>>)
    requires forall v :: v in views ==> v in d.files
    requires FileList(views, cacheFiles, extra) != []
    ensures var r := FireOutcome(d, app, opts, config, blade, exec, views, cacheFiles, extra).disk;
      && |r.runs| > |d.runs|
      && r.runs[..|d.runs|] == d.runs
      && r.runs[|d.runs|] == XgettextArgs(opts, TemplateFile(app, config), FileList(views, cacheFiles, extra))
  {
    var argv := XgettextArgs(opts, TemplateFile(app, config), FileList(views, cacheFiles, extra));
    var ran := d.(files := Compiled(d.files, app, opts, blade, views), runs := d.runs + [argv]);
    var extracted := ran.(files := AfterRun(ran.files, TemplateFile(app, config), exec(argv)));
    if IsSuccessful(exec(argv)) && Truthy(opts.msgmerge) {
      MergeAllRuns(extracted, TemplateFile(app, config), MsgmergeBinary(config.msgmergeBinary, config.msgmergeBinaryPath),
                   LocaleRoot(app, config.path), config.textdomain, MergedLocales(config.locales), exec);
      var r := MergeAll(extracted, TemplateFile(app, config), MsgmergeBinary(config.msgmergeBinary, config.msgmergeBinaryPath),
                        LocaleRoot(app, config.path), config.textdomain, MergedLocales(config.locales), exec).disk;
      assert r.runs[..|d.runs|] == r.runs[..|ran.runs|][..|d.runs|];
      assert r.runs[|d.runs|] == r.runs[..|ran.runs|][|d.runs|];
    }
  }

  /**
   * Once files are found, `fire` raises XgettextException exactly when
   * xgettext fails, and then with its exit code and vector, after running
   * nothing else, merging nothing and cleaning nothing: the files are as
   * the compile step left them.
   */
  lemma FireXgettextFails(d: Disk, app: string, opts: Options, config: Config, blade: Blade,
                          exec: seq<string> -> ProcessResult,
                          views: seq<string>, cacheFiles: seq<string>, extra: seq<seq<string>>)
    requires forall v :: v in views ==> v in d.files
    requires FileList(views, cacheFiles, extra) != []
    ensures var r := FireOutcome(d, app, opts, config, blade, exec, views, cacheFiles, extra);
      var argv := XgettextArgs(opts, TemplateFile(app, config), FileList(views, cacheFiles, extra));
      && (r.failure.Some? && r.failure.value.XgettextFailed? <==> !IsSuccessful(exec(argv)))
      && (!IsSuccessful(exec(argv)) ==>
            && r.failure == Some(XgettextFailed(exec(argv).exitCode, argv))
            && r.disk.runs == d.runs + [argv]
            && r.disk.files == Compiled(d.files, app, opts, blade, views)
            && r.disk.dirs == d.dirs)
  {
    var output := TemplateFile(app, config);
    var argv := XgettextArgs(opts, output, FileList(views, cacheFiles, extra));
    var ran := d.(files := Compiled(d.files, app, opts, blade, views), runs := d.runs + [argv]);
    MergeAllFailsInMsgmerge(ran.(files := AfterRun(ran.files, output, exec(argv))), output,
                            MsgmergeBinary(config.msgmergeBinary, config.msgmergeBinaryPath),
                            LocaleRoot(app, config.path), config.textdomain, MergedLocales(config.locales), exec);
  }

  /**
   * msgmerge runs only when the msgmerge option is on and xgettext
   * succeeded, and every run after xgettext's is msgmerge on a locale other
   * than the first one configured.
   */
  lemma ExtractMsgmergeGated(d: Disk, app: string, opts: Options, config: Config, blade: Blade,
                             exec: seq<string> -> ProcessResult,
                             views: seq<string>, cacheFiles: seq<string>, extra: seq<seq<string>>)
    requires forall v :: v in views ==> v in d.files
    ensures var r := Extract(d, app, opts, config, blade, exec, views, cacheFiles, extra).disk;
      var argv := XgettextArgs(opts, TemplateFile(app, config), FileList(views, cacheFiles, extra));
      var locales := MergedLocales(config.locales);
      var root := LocaleRoot(app, config.path);
      && |r.runs| <= |d.runs| + 1 + |locales|
      && (|r.runs| > |d.runs| + 1 ==> Truthy(opts.msgmerge) && IsSuccessful(exec(argv)))
      && (forall j :: |d.runs| + 1 <= j < |r.runs| ==>
            exists i :: 0 <= i < |locales| &&
              r.runs[j] == MsgmergeArgs(MsgmergeBinary(config.msgmergeBinary, config.msgmergeBinaryPath),
                                        LocaleDir(root, locales[i]), TextdomainFile(LocaleDir(root, locales[i]), config.textdomain)))
  {
    var argv := XgettextArgs(opts, TemplateFile(app, config), FileList(views, cacheFiles, extra));
    if FileList(views, cacheFiles, extra) != [] && IsSuccessful(exec(argv)) && Truthy(opts.msgmerge) {
      var ran := d.(files := Compiled(d.files, app, opts, blade, views), runs := d.runs + [argv]);
      var extracted := ran.(files := AfterRun(ran.files, TemplateFile(app, config), exec(argv)));
      MergeAllRuns(extracted, TemplateFile(app, config), MsgmergeBinary(config.msgmergeBinary, config.msgmergeBinaryPath),
                   LocaleRoot(app, config.path), config.textdomain, MergedLocales(config.locales), exec);
    }
  }

  /**
   * After a successful xgettext the template holds what xgettext wrote, or
   * is as the compile step left it when xgettext wrote nothing, and the
   * merge leaves it alone when the textdomain has no `/`.
   */
  lemma ExtractKeepsTemplate(d: Disk, app: string, opts: Options, config: Config, blade: Blade,
                             exec: seq<string> -> ProcessResult,
                             views: seq<string>, cacheFiles: seq<string>, extra: seq<seq<string>>)
    requires forall v :: v in views ==> v in d.files
    requires '/' !in config.textdomain
    requires FileList(views, cacheFiles, extra) != []
    requires IsSuccessful(exec(XgettextArgs(opts, TemplateFile(app, config), FileList(views, cacheFiles, extra))))
    ensures var r := Extract(d, app, opts, config, blade, exec, views, cacheFiles, extra).disk;
      var res := exec(XgettextArgs(opts, TemplateFile(app, config), FileList(views, cacheFiles, extra)));
      var t := TemplateFile(app, config);
      var compiled := Compiled(d.files, app, opts, blade, views);
      && (res.written.Some? ==> t in r.files && r.files[t] == res.written.value)
      && (res.written.None? ==> (t in r.files <==> t in compiled) && (t in compiled ==> r.files[t] == compiled[t]))
  {
    var output := TemplateFile(app, config);
    var argv := XgettextArgs(opts, output, FileList(views, cacheFiles, extra));
    var root := LocaleRoot(app, config.path);
    var ran := d.(files := Compiled(d.files, app, opts, blade, views), runs := d.runs + [argv]);
    var extracted := ran.(files := AfterRun(ran.files, output, exec(argv)));
    if Truthy(opts.msgmerge) {
      assert output == root + config.textdomain + ".pot";
      TemplateOutsideLocaleDirs(root, config.textdomain, MergedLocales(config.locales));
      MergeAllFiles(extracted, output, MsgmergeBinary(config.msgmergeBinary, config.msgmergeBinaryPath),
                    root, config.textdomain, MergedLocales(config.locales), exec);
    }
  }

  /**
   * With `force_po` exactly `true` and an xgettext that writes its output
   * whenever it succeeds with `--force-po`, a successful run always leaves
   * the template holding what xgettext wrote.
   */
  lemma ForcePoWritesTemplate(d: Disk, app: string, opts: Options, config: Config, blade: Blade,
                              exec: seq<string> -> ProcessResult,
                              views: seq<string>, cacheFiles: seq<string>, extra: seq<seq<string>>)
    requires forall v :: v in views ==> v in d.files
    requires '/' !in config.textdomain
    requires opts.forcePo == Bool(true) && HonoursForcePo(exec)
    requires FileList(views, cacheFiles, extra) != []
    requires IsSuccessful(exec(XgettextArgs(opts, TemplateFile(app, config), FileList(views, cacheFiles, extra))))
    ensures var r := Extract(d, app, opts, config, blade, exec, views, cacheFiles, extra).disk;
      var res := exec(XgettextArgs(opts, TemplateFile(app, config), FileList(views, cacheFiles, extra)));
      && res.written.Some?
      && TemplateFile(app, config) in r.files && r.files[TemplateFile(app, config)] == res.written.value
  {
    ForcePoPassed(opts, TemplateFile(app, config), FileList(views, cacheFiles, extra));
    ExtractKeepsTemplate(d, app, opts, config, blade, exec, views, cacheFiles, extra);
  }

  /**
   * The cleanup: when it is on and nothing failed, no file the cache
   * listing returns is left (dot files and version-control files stay) and
   * every other file is as the extraction left it; when a
   * step failed or the option is off, nothing is deleted.
   */
  lemma FireCleanup(d: Disk, app: string, opts: Options, config: Config, blade: Blade, exec: seq<string> -> ProcessResult,
                    views: seq<string>, cacheFiles: seq<string>, extra: seq<seq<string>>)
    requires forall v :: v in views ==> v in d.files
    ensures var e := Extract(d, app, opts, config, blade, exec, views, cacheFiles, extra);
      var r := FireOutcome(d, app, opts, config, blade, exec, views, cacheFiles, extra);
      && r.failure == e.failure
      && r.disk.runs == e.disk.runs && r.disk.dirs == e.disk.dirs
      && (e.failure.None? && Truthy(opts.cleanup) ==>
            forall p :: p in r.disk.files <==> p in e.disk.files && !Visible(CacheFolder(app, opts), p))
      && (forall p :: p in r.disk.files ==> p in e.disk.files && r.disk.files[p] == e.disk.files[p])
      && (e.failure.Some? || !Truthy(opts.cleanup) ==> r.disk.files == e.disk.files)
  {
  }
}
