/**
 * The per-locale merge of `GettextCommand::merge` as pure functions over a
 * value of the filesystem and the list of processes run so far. The method
 * `GettextCommand.Merge` is proved equal to `MergeAll`; the lemmas say what
 * a merge does: it works below the locale directories only, seeds missing
 * files with the template, never leaves a new temporary file behind when it
 * succeeds, and keeps the locales finished before a failure.
 */
module Merging {
  import opened Wrappers
  import opened Php
  import opened Fs
  import opened Process

  /** The filesystem and the argument vectors of the processes run, in order. */
  datatype Disk = Disk(files: map<string, string>, dirs: set<string>, runs: seq<seq<string>>)

  /** The state after a step, and the exception it raised, if any. */
  datatype Step = Step(failure: Option<CommandError>, disk: Disk)

  /** The locales merged: the configured list, a scalar wrapped into a list, without its first element. */
  function MergedLocales(locales: Value): (r: seq<Scalar>)
    ensures |r| == if |Wrap(locales)| == 0 then 0 else |Wrap(locales)| - 1
    ensures forall i :: 0 <= i < |r| ==> r[i] == Wrap(locales)[i + 1]
  {
    var all := Wrap(locales);
    if |all| == 0 then [] else all[1..]
  }

  /** The msgmerge binary: `binary`, prefixed by `binary_path` and a separator unless that path is empty(). */
  function MsgmergeBinary(binary: Scalar, binaryPath: Scalar): string
  {
    (if Empty(binaryPath) then "" else ToStr(binaryPath) + SEP) + ToStr(binary)
  }

  /** `<app>/<path>/`, the folder holding the template and the locale folders. */
  function LocaleRoot(app: string, path: string): string
  {
    app + SEP + path + SEP
  }

  /** `<root><locale>/LC_MESSAGES/`. */
  function LocaleDir(root: string, locale: Scalar): string
  {
    root + ToStr(locale) + SEP + "LC_MESSAGES" + SEP
  }

  /** The locale's translation file, `<dir><textdomain>.pot`. */
  function TextdomainFile(dir: string, textdomain: string): string
  {
    dir + textdomain + ".pot"
  }

  /** The temporary copy of the new template. */
  function TempFile(dir: string): string
  {
    dir + "temp.pot"
  }

  /** msgmerge's arguments as the code writes them: the first input is always `messages.pot`. */
  function MsgmergeArgs(binary: string, dir: string, target: string): seq<string>
  {
    [binary, dir + "messages.pot", dir + "temp.pot", "--output-file=" + target]
  }

  /** msgmerge's arguments with the locale's own translation file as the first input. */
  function MsgmergeArgsIntended(binary: string, dir: string, target: string): seq<string>
  {
    [binary, target, dir + "temp.pot", "--output-file=" + target]
  }

  /** One iteration of the loop in `merge`, for one locale. */
  function MergeLocale(d: Disk, template: string, binary: string, root: string, textdomain: string,
                       locale: Scalar, exec: seq<string> -> ProcessResult): Step
  {
    var dir := LocaleDir(root, locale);
    var target := TextdomainFile(dir, textdomain);
    var d1 := d.(dirs := d.dirs + {dir});
    if target !in d1.files then
      Step(None, d1.(files := CopyFile(d1.files, template, target)))
    else
      var copied := CopyFile(d1.files, template, TempFile(dir));
      var argv := MsgmergeArgs(binary, dir, target);
      var res := exec(argv);
      var d2 := d1.(files := copied, runs := d1.runs + [argv]);
      if IsSuccessful(res) then Step(None, d2.(files := AfterRun(copied, target, res) - {TempFile(dir)}))
      else Step(Some(MsgmergeFailed(res.exitCode, argv)), d2)
  }

  /** The loop in `merge`: the locales in order, stopping at the first failure. */
  function MergeAll(d: Disk, template: string, binary: string, root: string, textdomain: string,
                    locales: seq<Scalar>, exec: seq<string> -> ProcessResult): Step
    decreases |locales|
  {
    if |locales| == 0 then Step(None, d)
    else
      var s := MergeLocale(d, template, binary, root, textdomain, locales[0], exec);
      if s.failure.Some? then s
      else MergeAll(s.disk, template, binary, root, textdomain, locales[1..], exec)
  }

  /** Running the loop over one more locale: one more iteration, unless it had already failed. */
  lemma {:induction false} MergeAllSnoc(d: Disk, template: string, binary: string, root: string, textdomain: string,
                                        locales: seq<Scalar>, locale: Scalar, exec: seq<string> -> ProcessResult)
    ensures var s := MergeAll(d, template, binary, root, textdomain, locales, exec);
      MergeAll(d, template, binary, root, textdomain, locales + [locale], exec) ==
        if s.failure.Some? then s else MergeLocale(s.disk, template, binary, root, textdomain, locale, exec)
    decreases |locales|
  {
    if |locales| == 0 {
      assert locales + [locale] == [locale];
    } else {
      assert (locales + [locale])[0] == locales[0];
      assert (locales + [locale])[1..] == locales[1..] + [locale];
      var s := MergeLocale(d, template, binary, root, textdomain, locales[0], exec);
      if s.failure.None? {
        MergeAllSnoc(s.disk, template, binary, root, textdomain, locales[1..], locale, exec);
      }
    }
  }

  /** The only exception the loop raises is msgmerge's. */
  lemma {:induction false} MergeAllFailsInMsgmerge(d: Disk, template: string, binary: string, root: string,
                                                   textdomain: string, locales: seq<Scalar>,
                                                   exec: seq<string> -> ProcessResult)
    ensures var s := MergeAll(d, template, binary, root, textdomain, locales, exec);
      s.failure.Some? ==> s.failure.value.MsgmergeFailed?
    decreases |locales|
  {
    if |locales| > 0 {
      var s := MergeLocale(d, template, binary, root, textdomain, locales[0], exec);
      if s.failure.None? {
        MergeAllFailsInMsgmerge(s.disk, template, binary, root, textdomain, locales[1..], exec);
      }
    }
  }

  /** Once the loop has failed on a prefix of the locales, the rest of them changes nothing. */
  lemma {:induction false} MergeAllStopsAtFailure(d: Disk, template: string, binary: string, root: string,
                                                  textdomain: string, locales: seq<Scalar>, k: nat,
                                                  exec: seq<string> -> ProcessResult)
    requires k <= |locales|
    requires MergeAll(d, template, binary, root, textdomain, locales[..k], exec).failure.Some?
    ensures MergeAll(d, template, binary, root, textdomain, locales, exec)
         == MergeAll(d, template, binary, root, textdomain, locales[..k], exec)
    decreases |locales| - k
  {
    if k == |locales| {
      assert locales[..k] == locales;
    } else {
      MergeAllSnoc(d, template, binary, root, textdomain, locales[..k], locales[k], exec);
      assert locales[..k] + [locales[k]] == locales[..k + 1];
      MergeAllStopsAtFailure(d, template, binary, root, textdomain, locales, k + 1, exec);
    }
  }

  /**
   * No rollback: when the loop fails, it failed at some locale `k`, every
   * locale before `k` was merged, and the state is the one the failing
   * iteration left, built on top of theirs.
   */
  lemma {:induction false} MergeAllFailure(d: Disk, template: string, binary: string, root: string, textdomain: string,
                                           locales: seq<Scalar>, exec: seq<string> -> ProcessResult) returns (k: nat)
    requires MergeAll(d, template, binary, root, textdomain, locales, exec).failure.Some?
    ensures k < |locales|
    ensures var before := MergeAll(d, template, binary, root, textdomain, locales[..k], exec);
      && before.failure.None?
      && MergeLocale(before.disk, template, binary, root, textdomain, locales[k], exec)
           == MergeAll(d, template, binary, root, textdomain, locales, exec)
    decreases |locales|
  {
    var s := MergeLocale(d, template, binary, root, textdomain, locales[0], exec);
    if s.failure.Some? {
      k := 0;
      assert locales[..0] == [];
    } else {
      var k' := MergeAllFailure(s.disk, template, binary, root, textdomain, locales[1..], exec);
      k := k' + 1;
      var pre := locales[..k];
      assert pre[0] == locales[0] && pre[1..] == locales[1..][..k'];
      assert locales[1..][k'] == locales[k];
    }
  }

  /** `p` lies in the folder of one of `locales`. */
  predicate InLocaleDirs(p: string, root: string, locales: seq<Scalar>)
  {
    exists i :: 0 <= i < |locales| && StartsWith(p, LocaleDir(root, locales[i]))
  }

  lemma StartsWithConcat(a: string, b: string)
    ensures StartsWith(a + b, a)
  {
    assert (a + b)[..|a|] == a;
  }

  /** One iteration touches only its locale's folder and runs at most msgmerge on it. */
  lemma MergeLocaleFrame(d: Disk, template: string, binary: string, root: string, textdomain: string,
                         locale: Scalar, exec: seq<string> -> ProcessResult)
    ensures var dir := LocaleDir(root, locale);
      var m := MergeLocale(d, template, binary, root, textdomain, locale, exec).disk;
      && (forall p :: p in d.files && !StartsWith(p, dir) ==> p in m.files && m.files[p] == d.files[p])
      && (forall p :: p in m.files && p !in d.files ==> StartsWith(p, dir))
      && m.dirs == d.dirs + {dir}
      && (m.runs == d.runs || m.runs == d.runs + [MsgmergeArgs(binary, dir, TextdomainFile(dir, textdomain))])
  {
    var dir := LocaleDir(root, locale);
    StartsWithConcat(dir, textdomain + ".pot");
    assert TextdomainFile(dir, textdomain) == dir + (textdomain + ".pot");
    StartsWithConcat(dir, "temp.pot");
  }

  /**
   * The loop leaves every file outside the folders of the merged locales as
   * it was, and every file it creates lies in one of them.
   */
  lemma {:induction false} MergeAllFiles(d: Disk, template: string, binary: string, root: string, textdomain: string,
                                         locales: seq<Scalar>, exec: seq<string> -> ProcessResult)
    ensures var r := MergeAll(d, template, binary, root, textdomain, locales, exec).disk;
      && (forall p :: p in d.files && !InLocaleDirs(p, root, locales) ==> p in r.files && r.files[p] == d.files[p])
      && (forall p :: p in r.files && p !in d.files ==> InLocaleDirs(p, root, locales))
    decreases |locales|
  {
    if |locales| > 0 {
      var s := MergeLocale(d, template, binary, root, textdomain, locales[0], exec);
      var m := s.disk;
      MergeLocaleFrame(d, template, binary, root, textdomain, locales[0], exec);
      if s.failure.None? {
        var rest := locales[1..];
        MergeAllFiles(m, template, binary, root, textdomain, rest, exec);
        var r := MergeAll(m, template, binary, root, textdomain, rest, exec).disk;
        forall p | p in d.files && !InLocaleDirs(p, root, locales)
          ensures p in r.files && r.files[p] == d.files[p]
        {
          assert !StartsWith(p, LocaleDir(root, locales[0]));
        }
        forall p | p in r.files && p !in d.files
          ensures InLocaleDirs(p, root, locales)
        {
          if p in m.files && p !in d.files {
            assert StartsWith(p, LocaleDir(root, locales[0]));
          } else {
            var i :| 0 <= i < |rest| && StartsWith(p, LocaleDir(root, rest[i]));
            assert rest[i] == locales[i + 1];
          }
        }
      } else {
        forall p | p in d.files && !InLocaleDirs(p, root, locales)
          ensures p in m.files && m.files[p] == d.files[p]
        {
          assert !StartsWith(p, LocaleDir(root, locales[0]));
        }
        forall p | p in m.files && p !in d.files
          ensures InLocaleDirs(p, root, locales)
        {
          assert StartsWith(p, LocaleDir(root, locales[0]));
        }
      }
    }
  }

  /** Every folder the loop creates is the folder of a merged locale. */
  lemma {:induction false} MergeAllDirs(d: Disk, template: string, binary: string, root: string, textdomain: string,
                                        locales: seq<Scalar>, exec: seq<string> -> ProcessResult)
    ensures var r := MergeAll(d, template, binary, root, textdomain, locales, exec).disk;
      d.dirs <= r.dirs &&
      forall x :: x in r.dirs ==> x in d.dirs || exists i :: 0 <= i < |locales| && x == LocaleDir(root, locales[i])
    decreases |locales|
  {
    if |locales| > 0 {
      var s := MergeLocale(d, template, binary, root, textdomain, locales[0], exec);
      var m := s.disk;
      MergeLocaleFrame(d, template, binary, root, textdomain, locales[0], exec);
      if s.failure.None? {
        var rest := locales[1..];
        MergeAllDirs(m, template, binary, root, textdomain, rest, exec);
        var r := MergeAll(m, template, binary, root, textdomain, rest, exec).disk;
        forall x | x in r.dirs
          ensures x in d.dirs || exists i :: 0 <= i < |locales| && x == LocaleDir(root, locales[i])
        {
          if x !in m.dirs {
            var i :| 0 <= i < |rest| && x == LocaleDir(root, rest[i]);
            assert rest[i] == locales[i + 1];
          } else if x !in d.dirs {
            assert x == LocaleDir(root, locales[0]);
          }
        }
      }
    }
  }

  /**
   * The loop appends at most one process per locale to the runs, and each
   * is msgmerge on the folder of a merged locale.
   */
  lemma {:induction false} MergeAllRuns(d: Disk, template: string, binary: string, root: string, textdomain: string,
                                        locales: seq<Scalar>, exec: seq<string> -> ProcessResult)
    ensures var r := MergeAll(d, template, binary, root, textdomain, locales, exec).disk;
      && |d.runs| <= |r.runs| <= |d.runs| + |locales|
      && r.runs[..|d.runs|] == d.runs
      && (forall j :: |d.runs| <= j < |r.runs| ==>
            exists i :: 0 <= i < |locales| && r.runs[j] == MsgmergeArgs(binary, LocaleDir(root, locales[i]),
                                                  TextdomainFile(LocaleDir(root, locales[i]), textdomain)))
    decreases |locales|
  {
    if |locales| > 0 {
      var dir := LocaleDir(root, locales[0]);
      var s := MergeLocale(d, template, binary, root, textdomain, locales[0], exec);
      var m := s.disk;
      MergeLocaleFrame(d, template, binary, root, textdomain, locales[0], exec);
      if s.failure.None? {
        var rest := locales[1..];
        MergeAllRuns(m, template, binary, root, textdomain, rest, exec);
        var r := MergeAll(m, template, binary, root, textdomain, rest, exec).disk;
        forall j | |d.runs| <= j < |r.runs|
          ensures exists i :: 0 <= i < |locales| && r.runs[j] == MsgmergeArgs(binary, LocaleDir(root, locales[i]),
                                                      TextdomainFile(LocaleDir(root, locales[i]), textdomain))
        {
          if j < |m.runs| {
            assert r.runs[j] == r.runs[..|m.runs|][j] == m.runs[j];
            assert m.runs[j] == MsgmergeArgs(binary, dir, TextdomainFile(dir, textdomain));
          } else {
            var i :| 0 <= i < |rest| && r.runs[j] == MsgmergeArgs(binary, LocaleDir(root, rest[i]),
                                              TextdomainFile(LocaleDir(root, rest[i]), textdomain));
            assert rest[i] == locales[i + 1];
          }
        }
        assert r.runs[..|d.runs|] == r.runs[..|m.runs|][..|d.runs|];
      } else {
        assert m.runs[..|d.runs|] == d.runs;
      }
    }
  }

  /** The template `<root><textdomain>.pot` is never a locale's translation file. */
  lemma TargetIsNotTemplate(root: string, textdomain: string, locale: Scalar)
    ensures TextdomainFile(LocaleDir(root, locale), textdomain) != root + textdomain + ".pot"
  {
    assert |TextdomainFile(LocaleDir(root, locale), textdomain)| > |root + textdomain + ".pot"|;
  }

  /** With a textdomain free of `/`, the template `<root><textdomain>.pot` lies in no locale's folder. */
  lemma TemplateOutsideLocaleDirs(root: string, textdomain: string, locales: seq<Scalar>)
    requires '/' !in textdomain
    ensures !InLocaleDirs(root + textdomain + ".pot", root, locales)
  {
    var t := root + textdomain + ".pot";
    forall i | 0 <= i < |locales|
      ensures !StartsWith(t, LocaleDir(root, locales[i]))
    {
      var dir := LocaleDir(root, locales[i]);
      var k := |ToStr(locales[i])|;
      var n := |root| + k;
      assert dir[n] == '/';
      if |dir| <= |t| {
        assert t[n] == (textdomain + ".pot")[k];
        assert (textdomain + ".pot")[k] == textdomain[k];
        assert t[..|dir|][n] != dir[n];
      }
    }
  }

  /** Locales with different names have different translation files. */
  lemma TargetsDistinct(root: string, textdomain: string, a: Scalar, b: Scalar)
    requires ToStr(a) != ToStr(b)
    ensures TextdomainFile(LocaleDir(root, a), textdomain) != TextdomainFile(LocaleDir(root, b), textdomain)
  {
    var ta := TextdomainFile(LocaleDir(root, a), textdomain);
    var tb := TextdomainFile(LocaleDir(root, b), textdomain);
    if |ToStr(a)| == |ToStr(b)| {
      var n := |root|;
      assert ta[n..n + |ToStr(a)|] == ToStr(a);
      assert tb[n..n + |ToStr(b)|] == ToStr(b);
    }
  }

  /**
   * With a textdomain free of `/` and other than `temp`, no folder's
   * temporary file is any folder's translation file.
   */
  lemma TempIsNoTarget(dirA: string, dirB: string, textdomain: string)
    requires |dirA| > 0 && dirA[|dirA| - 1] == '/'
    requires |dirB| > 0 && dirB[|dirB| - 1] == '/'
    requires '/' !in textdomain && textdomain != "temp"
    ensures TextdomainFile(dirB, textdomain) != TempFile(dirA)
  {
    var t := dirB + (textdomain + ".pot");
    var u := dirA + "temp.pot";
    assert TextdomainFile(dirB, textdomain) == t;
    if |dirA| == |dirB| {
      if |textdomain| == 4 {
        assert t[|dirB|..|dirB| + 4] == textdomain;
        assert u[|dirA|..|dirA| + 4] == "temp";
      } else {
        assert |t| != |u|;
      }
    } else if |dirA| > |dirB| {
      var k := |dirA| - 1 - |dirB|;
      assert u[|dirA| - 1] == '/';
      if |dirA| - 1 < |t| {
        assert t[|dirA| - 1] == (textdomain + ".pot")[k];
        if k < |textdomain| {
          assert (textdomain + ".pot")[k] == textdomain[k];
        } else {
          assert (textdomain + ".pot")[k] == ".pot"[k - |textdomain|];
        }
      }
    } else {
      var k := |dirB| - 1 - |dirA|;
      assert t[|dirB| - 1] == '/';
      if |dirB| - 1 < |u| {
        assert u[|dirB| - 1] == "temp.pot"[k];
      }
    }
  }

  /**
   * Seeding: when no locale has its translation file yet, the loop runs no
   * process, succeeds, leaves every existing file as it was, gives every
   * locale its folder and a copy of the template as its translation file.
   */
  lemma {:induction false} MergeAllSeeds(d: Disk, template: string, binary: string, root: string, textdomain: string,
                                         locales: seq<Scalar>, exec: seq<string> -> ProcessResult)
    requires template == root + textdomain + ".pot" && template in d.files
    requires forall i :: 0 <= i < |locales| ==> TextdomainFile(LocaleDir(root, locales[i]), textdomain) !in d.files
    requires forall i, j :: 0 <= i < j < |locales| ==> ToStr(locales[i]) != ToStr(locales[j])
    ensures var s := MergeAll(d, template, binary, root, textdomain, locales, exec);
      && s.failure.None?
      && s.disk.runs == d.runs
      && (forall p :: p in d.files ==> p in s.disk.files && s.disk.files[p] == d.files[p])
      && (forall i :: 0 <= i < |locales| ==>
            && LocaleDir(root, locales[i]) in s.disk.dirs
            && TextdomainFile(LocaleDir(root, locales[i]), textdomain) in s.disk.files
            && s.disk.files[TextdomainFile(LocaleDir(root, locales[i]), textdomain)] == d.files[template])
    decreases |locales|
  {
    if |locales| > 0 {
      var dir := LocaleDir(root, locales[0]);
      var target := TextdomainFile(dir, textdomain);
      var m := MergeLocale(d, template, binary, root, textdomain, locales[0], exec).disk;
      TargetIsNotTemplate(root, textdomain, locales[0]);
      assert m.files == d.files[target := d.files[template]];
      var rest := locales[1..];
      forall i | 0 <= i < |rest|
        ensures TextdomainFile(LocaleDir(root, rest[i]), textdomain) !in m.files
      {
        assert rest[i] == locales[i + 1];
        TargetsDistinct(root, textdomain, locales[0], rest[i]);
      }
      forall i, j | 0 <= i < j < |rest|
        ensures ToStr(rest[i]) != ToStr(rest[j])
      {
        assert rest[i] == locales[i + 1] && rest[j] == locales[j + 1];
      }
      MergeAllSeeds(m, template, binary, root, textdomain, rest, exec);
      var r := MergeAll(m, template, binary, root, textdomain, rest, exec).disk;
      forall i | 0 <= i < |locales|
        ensures && LocaleDir(root, locales[i]) in r.dirs
                && TextdomainFile(LocaleDir(root, locales[i]), textdomain) in r.files
                && r.files[TextdomainFile(LocaleDir(root, locales[i]), textdomain)] == d.files[template]
      {
        if i == 0 {
          MergeAllDirs(m, template, binary, root, textdomain, rest, exec);
        } else {
          assert locales[i] == rest[i - 1];
        }
      }
    }
  }

  /**
   * A successful loop creates no file other than translation files of the
   * merged locales: the temporary copies are gone.
   */
  lemma {:induction false} MergeAllNewFilesAreTargets(d: Disk, template: string, binary: string, root: string,
                                                      textdomain: string, locales: seq<Scalar>,
                                                      exec: seq<string> -> ProcessResult)
    requires MergeAll(d, template, binary, root, textdomain, locales, exec).failure.None?
    ensures var r := MergeAll(d, template, binary, root, textdomain, locales, exec).disk;
      forall p :: p in r.files && p !in d.files ==>
        exists i :: 0 <= i < |locales| && p == TextdomainFile(LocaleDir(root, locales[i]), textdomain)
    decreases |locales|
  {
    if |locales| > 0 {
      var target := TextdomainFile(LocaleDir(root, locales[0]), textdomain);
      var m := MergeLocale(d, template, binary, root, textdomain, locales[0], exec).disk;
      assert forall p :: p in m.files && p !in d.files ==> p == target;
      var rest := locales[1..];
      MergeAllNewFilesAreTargets(m, template, binary, root, textdomain, rest, exec);
      var r := MergeAll(m, template, binary, root, textdomain, rest, exec).disk;
      forall p | p in r.files && p !in d.files
        ensures exists i :: 0 <= i < |locales| && p == TextdomainFile(LocaleDir(root, locales[i]), textdomain)
      {
        if p !in m.files {
          var i :| 0 <= i < |rest| && p == TextdomainFile(LocaleDir(root, rest[i]), textdomain);
          assert rest[i] == locales[i + 1];
        }
      }
    }
  }

  /** After a successful loop, no merged locale has a temporary file it did not have before. */
  lemma MergeAllLeavesNoTemp(d: Disk, template: string, binary: string, root: string, textdomain: string,
                             locales: seq<Scalar>, exec: seq<string> -> ProcessResult)
    requires '/' !in textdomain && textdomain != "temp"
    requires MergeAll(d, template, binary, root, textdomain, locales, exec).failure.None?
    ensures var r := MergeAll(d, template, binary, root, textdomain, locales, exec).disk;
      forall i :: 0 <= i < |locales| && TempFile(LocaleDir(root, locales[i])) in r.files ==>
        TempFile(LocaleDir(root, locales[i])) in d.files
  {
    MergeAllNewFilesAreTargets(d, template, binary, root, textdomain, locales, exec);
    var r := MergeAll(d, template, binary, root, textdomain, locales, exec).disk;
    forall i | 0 <= i < |locales| && TempFile(LocaleDir(root, locales[i])) in r.files
      ensures TempFile(LocaleDir(root, locales[i])) in d.files
    {
      var temp := TempFile(LocaleDir(root, locales[i]));
      if temp !in d.files {
        var j :| 0 <= j < |locales| && temp == TextdomainFile(LocaleDir(root, locales[j]), textdomain);
        TempIsNoTarget(LocaleDir(root, locales[i]), LocaleDir(root, locales[j]), textdomain);
      }
    }
  }

  /** The msgmerge vector of one locale. */
  function MergeRun(binary: string, root: string, textdomain: string, locale: Scalar): seq<string>
  {
    MsgmergeArgs(binary, LocaleDir(root, locale), TextdomainFile(LocaleDir(root, locale), textdomain))
  }

  /** The msgmerge vectors of the locales whose translation file exists in `files`, in the locales' order. */
  function MergeRuns(files: map<string, string>, binary: string, root: string, textdomain: string,
                     locales: seq<Scalar>): seq<seq<string>>
    decreases |locales|
  {
    if |locales| == 0 then []
    else (if TextdomainFile(LocaleDir(root, locales[0]), textdomain) in files
          then [MergeRun(binary, root, textdomain, locales[0])] else [])
         + MergeRuns(files, binary, root, textdomain, locales[1..])
  }

  /** A translation file after a successful msgmerge: its output, or the file as it was when msgmerge wrote none. */
  function Merged(previous: string, res: ProcessResult): string
  {
    if res.written.Some? then res.written.value else previous
  }

  /**
   * An existing translation file is merged: msgmerge runs on the locale. On
   * success the file holds its output and the temporary file is gone; on
   * failure the exception carries msgmerge's exit code and vector, the file
   * is as it was and the temporary copy of the template stays.
   */
  lemma MergeLocaleMerges(d: Disk, template: string, binary: string, root: string, textdomain: string,
                          locale: Scalar, exec: seq<string> -> ProcessResult)
    requires '/' !in textdomain && textdomain != "temp"
    requires TextdomainFile(LocaleDir(root, locale), textdomain) in d.files
    ensures var dir := LocaleDir(root, locale);
      var target := TextdomainFile(dir, textdomain);
      var argv := MergeRun(binary, root, textdomain, locale);
      var s := MergeLocale(d, template, binary, root, textdomain, locale, exec);
      && s.disk.runs == d.runs + [argv]
      && s.disk.dirs == d.dirs + {dir}
      && (IsSuccessful(exec(argv)) ==>
            && s.failure.None?
            && TempFile(dir) !in s.disk.files
            && target in s.disk.files && s.disk.files[target] == Merged(d.files[target], exec(argv)))
      && (!IsSuccessful(exec(argv)) ==>
            && s.failure == Some(MsgmergeFailed(exec(argv).exitCode, argv))
            && target in s.disk.files && s.disk.files[target] == d.files[target]
            && (template in d.files ==> TempFile(dir) in s.disk.files && s.disk.files[TempFile(dir)] == d.files[template]))
  {
    var dir := LocaleDir(root, locale);
    TempIsNoTarget(dir, dir, textdomain);
  }

  /** One iteration changes no file but the locale's translation file and its temporary file. */
  lemma MergeLocaleTouches(d: Disk, template: string, binary: string, root: string, textdomain: string,
                           locale: Scalar, exec: seq<string> -> ProcessResult)
    ensures var dir := LocaleDir(root, locale);
      var m := MergeLocale(d, template, binary, root, textdomain, locale, exec).disk;
      forall p :: p != TextdomainFile(dir, textdomain) && p != TempFile(dir) ==>
        (p in m.files <==> p in d.files) && (p in d.files ==> m.files[p] == d.files[p])
  {
  }

  /** `p` is the translation file or the temporary file of one of `locales`. */
  predicate Touched(p: string, root: string, textdomain: string, locales: seq<Scalar>)
  {
    exists i :: 0 <= i < |locales| &&
      (p == TextdomainFile(LocaleDir(root, locales[i]), textdomain) || p == TempFile(LocaleDir(root, locales[i])))
  }

  /** The loop changes no file but the translation and temporary files of the locales. */
  lemma {:induction false} MergeAllKeeps(d: Disk, template: string, binary: string, root: string, textdomain: string,
                                         locales: seq<Scalar>, exec: seq<string> -> ProcessResult)
    ensures var r := MergeAll(d, template, binary, root, textdomain, locales, exec).disk;
      forall p :: !Touched(p, root, textdomain, locales) ==>
        (p in r.files <==> p in d.files) && (p in d.files ==> r.files[p] == d.files[p])
    decreases |locales|
  {
    if |locales| > 0 {
      var s := MergeLocale(d, template, binary, root, textdomain, locales[0], exec);
      MergeLocaleTouches(d, template, binary, root, textdomain, locales[0], exec);
      if s.failure.None? {
        var rest := locales[1..];
        MergeAllKeeps(s.disk, template, binary, root, textdomain, rest, exec);
        forall p | !Touched(p, root, textdomain, locales)
          ensures !Touched(p, root, textdomain, rest)
        {
          forall i | 0 <= i < |rest|
            ensures p != TextdomainFile(LocaleDir(root, rest[i]), textdomain) && p != TempFile(LocaleDir(root, rest[i]))
          {
            assert rest[i] == locales[i + 1];
          }
        }
      }
    }
  }

  /** A locale's translation file is not another locale's, nor any locale's temporary file. */
  lemma OwnFiles(root: string, textdomain: string, a: Scalar, b: Scalar)
    requires '/' !in textdomain && textdomain != "temp"
    requires ToStr(a) != ToStr(b)
    ensures TextdomainFile(LocaleDir(root, a), textdomain) != TextdomainFile(LocaleDir(root, b), textdomain)
    ensures TextdomainFile(LocaleDir(root, a), textdomain) != TempFile(LocaleDir(root, b))
  {
    TargetsDistinct(root, textdomain, a, b);
    TempIsNoTarget(LocaleDir(root, b), LocaleDir(root, a), textdomain);
  }

  /** Two file sets in which the same translation files exist give the same msgmerge vectors. */
  lemma {:induction false} MergeRunsAgree(f: map<string, string>, g: map<string, string>, binary: string, root: string,
                                          textdomain: string, locales: seq<Scalar>)
    requires forall i :: 0 <= i < |locales| ==>
      (TextdomainFile(LocaleDir(root, locales[i]), textdomain) in f <==> TextdomainFile(LocaleDir(root, locales[i]), textdomain) in g)
    ensures MergeRuns(f, binary, root, textdomain, locales) == MergeRuns(g, binary, root, textdomain, locales)
    decreases |locales|
  {
    if |locales| > 0 {
      var rest := locales[1..];
      forall i | 0 <= i < |rest|
        ensures TextdomainFile(LocaleDir(root, rest[i]), textdomain) in f <==> TextdomainFile(LocaleDir(root, rest[i]), textdomain) in g
      {
        assert rest[i] == locales[i + 1];
      }
      MergeRunsAgree(f, g, binary, root, textdomain, rest);
    }
  }

  /**
   * A successful loop over distinct locales runs msgmerge exactly on the
   * locales whose translation file existed before, in the locales' order.
   */
  lemma {:induction false} MergeAllRunsExisting(d: Disk, template: string, binary: string, root: string,
                                                textdomain: string, locales: seq<Scalar>,
                                                exec: seq<string> -> ProcessResult)
    requires '/' !in textdomain && textdomain != "temp"
    requires forall i, j :: 0 <= i < j < |locales| ==> ToStr(locales[i]) != ToStr(locales[j])
    requires MergeAll(d, template, binary, root, textdomain, locales, exec).failure.None?
    ensures MergeAll(d, template, binary, root, textdomain, locales, exec).disk.runs
         == d.runs + MergeRuns(d.files, binary, root, textdomain, locales)
    decreases |locales|
  {
    if |locales| > 0 {
      var l, rest := locales[0], locales[1..];
      var target := TextdomainFile(LocaleDir(root, l), textdomain);
      var m := MergeLocale(d, template, binary, root, textdomain, l, exec).disk;
      if target in d.files {
        MergeLocaleMerges(d, template, binary, root, textdomain, l, exec);
      }
      MergeLocaleTouches(d, template, binary, root, textdomain, l, exec);
      forall i | 0 <= i < |rest|
        ensures TextdomainFile(LocaleDir(root, rest[i]), textdomain) in m.files
            <==> TextdomainFile(LocaleDir(root, rest[i]), textdomain) in d.files
      {
        assert rest[i] == locales[i + 1];
        OwnFiles(root, textdomain, rest[i], l);
      }
      MergeRunsAgree(m.files, d.files, binary, root, textdomain, rest);
      forall i, j | 0 <= i < j < |rest|
        ensures ToStr(rest[i]) != ToStr(rest[j])
      {
        assert rest[i] == locales[i + 1] && rest[j] == locales[j + 1];
      }
      MergeAllRunsExisting(m, template, binary, root, textdomain, rest, exec);
    }
  }

  /**
   * What the loop promises a locale's translation file between `before`
   * and `after`: an existing file was merged successfully and holds what
   * msgmerge made of it; a missing file holds a copy of the template.
   */
  predicate Updated(before: map<string, string>, after: map<string, string>, template: string, binary: string,
                    root: string, textdomain: string, locale: Scalar, exec: seq<string> -> ProcessResult)
  {
    var target := TextdomainFile(LocaleDir(root, locale), textdomain);
    var res := exec(MergeRun(binary, root, textdomain, locale));
    && (target in before ==> IsSuccessful(res) && target in after && after[target] == Merged(before[target], res))
    && (target !in before && template in before ==> target in after && after[target] == before[template])
  }

  /** The first locale's promise holds after the rest of the loop, which leaves its file alone. */
  lemma UpdatedHead(d: Disk, template: string, binary: string, root: string, textdomain: string,
                    l: Scalar, rest: seq<Scalar>, exec: seq<string> -> ProcessResult)
    requires '/' !in textdomain && textdomain != "temp"
    requires forall k :: 0 <= k < |rest| ==> ToStr(l) != ToStr(rest[k])
    requires MergeLocale(d, template, binary, root, textdomain, l, exec).failure.None?
    ensures var m := MergeLocale(d, template, binary, root, textdomain, l, exec).disk;
      Updated(d.files, MergeAll(m, template, binary, root, textdomain, rest, exec).disk.files,
              template, binary, root, textdomain, l, exec)
  {
    var dir := LocaleDir(root, l);
    var target := TextdomainFile(dir, textdomain);
    var m := MergeLocale(d, template, binary, root, textdomain, l, exec).disk;
    if target in d.files {
      MergeLocaleMerges(d, template, binary, root, textdomain, l, exec);
    }
    MergeAllKeeps(m, template, binary, root, textdomain, rest, exec);
    forall k | 0 <= k < |rest|
      ensures target != TextdomainFile(LocaleDir(root, rest[k]), textdomain) && target != TempFile(LocaleDir(root, rest[k]))
    {
      OwnFiles(root, textdomain, l, rest[k]);
    }
  }

  /**
   * Another locale's promise measured from the state after the first
   * iteration is its promise measured from the state before it: the
   * iteration touches neither that locale's file nor the template.
   */
  lemma UpdatedTransfer(d: Disk, after: map<string, string>, template: string, binary: string, root: string,
                        textdomain: string, l: Scalar, x: Scalar, exec: seq<string> -> ProcessResult)
    requires '/' !in textdomain && textdomain != "temp"
    requires template == root + textdomain + ".pot"
    requires ToStr(l) != ToStr(x)
    requires Updated(MergeLocale(d, template, binary, root, textdomain, l, exec).disk.files, after,
                     template, binary, root, textdomain, x, exec)
    ensures Updated(d.files, after, template, binary, root, textdomain, x, exec)
  {
    var dir := LocaleDir(root, l);
    MergeLocaleTouches(d, template, binary, root, textdomain, l, exec);
    OwnFiles(root, textdomain, x, l);
    TargetIsNotTemplate(root, textdomain, l);
    TemplateOutsideLocaleDirs(root, textdomain, [l]);
    assert [l][0] == l;
    assert !StartsWith(template, dir);
    StartsWithConcat(dir, "temp.pot");
    assert template != TempFile(dir);
  }

  /**
   * After a successful loop over distinct locales, a locale whose
   * translation file existed holds what msgmerge made of it, and a locale
   * whose file was missing holds a copy of the template.
   */
  lemma {:induction false} MergeAllUpdatesTargets(d: Disk, template: string, binary: string, root: string,
                                                  textdomain: string, locales: seq<Scalar>,
                                                  exec: seq<string> -> ProcessResult)
    requires '/' !in textdomain && textdomain != "temp"
    requires template == root + textdomain + ".pot"
    requires forall i, j :: 0 <= i < j < |locales| ==> ToStr(locales[i]) != ToStr(locales[j])
    requires MergeAll(d, template, binary, root, textdomain, locales, exec).failure.None?
    ensures var r := MergeAll(d, template, binary, root, textdomain, locales, exec).disk;
      forall i :: 0 <= i < |locales| ==> Updated(d.files, r.files, template, binary, root, textdomain, locales[i], exec)
    decreases |locales|
  {
    if |locales| > 0 {
      var l, rest := locales[0], locales[1..];
      var m := MergeLocale(d, template, binary, root, textdomain, l, exec).disk;
      forall i, j | 0 <= i < j < |rest|
        ensures ToStr(rest[i]) != ToStr(rest[j])
      {
        assert rest[i] == locales[i + 1] && rest[j] == locales[j + 1];
      }
      forall k | 0 <= k < |rest|
        ensures ToStr(l) != ToStr(rest[k])
      {
        assert rest[k] == locales[k + 1];
      }
      MergeAllUpdatesTargets(m, template, binary, root, textdomain, rest, exec);
      UpdatedHead(d, template, binary, root, textdomain, l, rest, exec);
      var r := MergeAll(m, template, binary, root, textdomain, rest, exec).disk;
      forall i | 1 <= i < |locales|
        ensures Updated(d.files, r.files, template, binary, root, textdomain, locales[i], exec)
      {
        assert locales[i] == rest[i - 1];
        UpdatedTransfer(d, r.files, template, binary, root, textdomain, l, locales[i], exec);
      }
    }
  }

  /**
   * As written, msgmerge reads `messages.pot` and writes the locale's own
   * file: it updates the file it reads exactly when the textdomain is
   * `messages`.
   */
  lemma MsgmergeReadsMessagesPot(binary: string, dir: string, textdomain: string)
    ensures var argv := MsgmergeArgs(binary, dir, TextdomainFile(dir, textdomain));
      argv[3] == "--output-file=" + argv[1] <==> textdomain == "messages"
  {
    var argv := MsgmergeArgs(binary, dir, TextdomainFile(dir, textdomain));
    if argv[3] == "--output-file=" + argv[1] {
      var a := "--output-file=" + dir;
      assert argv[3] == a + (textdomain + ".pot");
      assert "--output-file=" + argv[1] == a + "messages.pot";
      assert textdomain + ".pot" == (a + (textdomain + ".pot"))[|a|..] == (a + "messages.pot")[|a|..] == "messages.pot";
      assert textdomain == (textdomain + ".pot")[..|textdomain|] == "messages.pot"[..8];
    }
  }

  /** Corrected, msgmerge updates the locale's own file whatever the textdomain. */
  lemma MsgmergeIntendedUpdatesTarget(binary: string, dir: string, textdomain: string)
    ensures var argv := MsgmergeArgsIntended(binary, dir, TextdomainFile(dir, textdomain));
      argv[3] == "--output-file=" + argv[1] && argv[1] == TextdomainFile(dir, textdomain)
  {
  }
}
