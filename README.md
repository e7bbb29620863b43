# laravel-gettext in Dafny

A model of the two working parts of the Laravel 4 package `paxx/laravel-gettext`.

**The `gettext` console command** (`GettextCommand`) runs these steps in order:
1. It lists the views folder and compiles every Blade view into the cache folder.
2. It collects the non-Blade views, the compiled views and the files of the additional folders.
3. It builds the `xgettext` argument vector and runs it, which writes `<app>/<path>/<textdomain>.pot`.
4. For every configured locale but the first, it seeds or merges `<app>/<path>/<locale>/LC_MESSAGES/<textdomain>.pot` with `msgmerge`.
5. If asked to, it empties the cache folder.

**The runtime helper** (`Gettext`):
- It creates the translation folder.
- It stores the preferred encodings.
- It asks the C library's `setlocale` for `<locale>.<encoding>` for each encoding, then for the bare locale.
- It raises `SetLocaleException` when the call fails.

Modules:
- `Php`: the PHP value semantics the code relies on:
  - truthiness, `empty()`, `== ''` and string conversion;
  - `array($v)` versus `(array)$v`;
  - `explode` and `implode`.
- `Fs`: the filesystem behind the `File` facade. The class `Filesystem` holds a map from path to contents and a set of directories. `allFiles` lists a folder in an order the filesystem chooses, with the default filters of Symfony's Finder.
- `Process`: a process result (exit code and the file it writes, if any) and the three exceptions of the command.
- `Extraction`: pure functions for the file list and the `xgettext` argument vector, plus a reader `ReadArgs` that parses an argument vector back into what `xgettext` is told.
- `ExtractionReading`: proves that reading the vector back recovers the configuration.
- `Merging`: one iteration of the locale loop (`MergeLocale`), the loop itself (`MergeAll`) and their properties.
- `Pipeline`: `fire` end to end as a function of the initial disk and of the listings.
- `Command`: the class `GettextCommand`. Its methods change the filesystem and the process builder, and each is proved equal to the functions above.
- `Runtime`: the class `Gettext` and `SetLocaleOutcome`, the function that says what `setLocale` raises.

Modelling conventions:
- External programs are an oracle `exec: seq<string> -> ProcessResult`. A run succeeds when its exit code is 0. On success the program may have written its output file: xgettext writes nothing when it finds no messages and is not given `--force-po`. `HonoursForcePo` states that it always writes with `--force-po`.
- The Blade compiler is an oracle: the compiled file of a view is `<cache>/<digest(view)>`, where the digest is 32 lower-case hexadecimal digits as md5 gives, and holds `compile(view)`. The code hands Blade a cache folder that already ends in `/`, so Blade builds `<cache>//<digest>`; the file system reads that as `<cache>/<digest>`, and the model stores it in that form.
- Paths are compared as strings: `a//b` and `a/b` are two different keys of the file map.
- `File::allFiles` skips what Symfony's Finder skips by default: every path with a component starting with `.` (dot files, `.git`, `.svn`, `.hg` and the other dot-named version-control folders), and the files in folders named `CVS`, `_svn` or `_darcs`. The cleanup deletes exactly what that listing returns, so such files survive it.
- The C library's `setlocale` is an oracle from a category and a candidate name to the name it reports, or none when it refuses the candidate.
- `app_path()` is a parameter. `DIRECTORY_SEPARATOR` is `/`.
- Each locale's file is `<textdomain>.pot`.
- Neither tool is passed `--sort-output`, and nothing rewrites or reorders the location comments of the template.
- An empty locale list is no error: the merge loop simply does nothing.
- The keyword arguments and msgmerge's first input are modelled as written (see Findings).

## Model

| member | source | states |
|---|---|---|
| Php.Wrap | src/Paxx/Gettext/Commands/GettextCommand.php:247-248 | a scalar, null included, becomes a one-element list; a list is kept as it is |
| Php.CastToArray | src/Paxx/Gettext/Gettext.php:96 | `(array)`: null becomes the empty list, any other scalar a one-element list, a list stays |
| Php.WrapVersusCast | src/Paxx/Gettext/Gettext.php:42-45 | `array($v)` and `(array)$v` differ exactly on null |
| Php.LooseEmptyIsEmpty | src/Paxx/Gettext/Commands/GettextCommand.php:257 | a value equal to `''` is `empty()`, but `"0"` is `empty()` without being equal to `''`, so the two binary-path tests differ |
| Php.Explode | src/Paxx/Gettext/Commands/GettextCommand.php:79-81 | splitting gives one more piece than there are delimiters, and no piece holds the delimiter |
| Php.ImplodeExplode | src/Paxx/Gettext/Commands/GettextCommand.php:79-81 | joining the pieces of a split gives the string back |
| Php.ExplodeImplode | src/Paxx/Gettext/Gettext.php:127 | splitting the join of delimiter-free pieces gives the pieces back |
| Fs.ListingEmpty | src/Paxx/Gettext/Commands/GettextCommand.php:96-100 | a listing is empty exactly when no file below the folder passes the Finder's default filters |
| Fs.IgnoredExamples | src/Paxx/Gettext/Commands/GettextCommand.php:62 | the Finder's default filters skip `.DS_Store`, a file in `.git` and a file in `CVS`, and keep a view in a sub-folder |
| Fs.CopyFile | src/Paxx/Gettext/Commands/GettextCommand.php:272 | the target receives the source's contents; every other file is unchanged; a missing source changes nothing |
| Fs.Filesystem.AllFiles | src/Paxx/Gettext/Commands/GettextCommand.php:62 | returns every file below the folder that the Finder's default filters keep (no dot file, nothing in a dot folder, `CVS`, `_svn` or `_darcs`), each once, and nothing else |
| Fs.Filesystem.MakeDirectory | src/Paxx/Gettext/Commands/GettextCommand.php:266-267 | adds the folder and changes no file |
| Fs.Filesystem.Copy | src/Paxx/Gettext/Commands/GettextCommand.php:279 | succeeds exactly when the source exists, and the files become `CopyFile` of the old ones |
| Fs.Filesystem.Delete | src/Paxx/Gettext/Commands/GettextCommand.php:300 | removes exactly that path and reports whether it existed |
| Fs.Filesystem.Put | src/Paxx/Gettext/Commands/GettextCommand.php:225 | the path now holds the given contents; nothing else changes |
| Extraction.Tail | src/Paxx/Gettext/Commands/GettextCommand.php:69 | `substr($s, -9)`: the last nine characters, or the whole string when it is shorter, and always a suffix of it |
| Extraction.Blades | src/Paxx/Gettext/Commands/GettextCommand.php:220-222 | keeps exactly the views whose name ends in `blade.php` |
| Extraction.NonBlades | src/Paxx/Gettext/Commands/GettextCommand.php:68-70 | keeps exactly the views whose name does not end in `blade.php` |
| Extraction.FiltersKeepOrder | src/Paxx/Gettext/Commands/GettextCommand.php:68-70 | like `array_filter`, both filters keep the views in the order of the listing |
| Extraction.BladesPartition | src/Paxx/Gettext/Commands/GettextCommand.php:65-70 | the compiled views and the kept views together are the listed views, as a multiset |
| Extraction.CompileAll | src/Paxx/Gettext/Commands/GettextCommand.php:224-226 | adds exactly the compiled path of every Blade view; every other file is unchanged |
| Extraction.CompileAllContents | src/Paxx/Gettext/Commands/GettextCommand.php:224-226 | each view's compiled file holds what Blade makes of the view's contents |
| Extraction.CompiledListed | src/Paxx/Gettext/Commands/GettextCommand.php:217 | a compiled view lands below the cache folder under its hexadecimal digest, so the cache listing returns it |
| Extraction.CacheFolder | src/Paxx/Gettext/Commands/GettextCommand.php:60 | the cache folder ends with the separator |
| Extraction.AdditionalPaths | src/Paxx/Gettext/Commands/GettextCommand.php:76-81 | a list is taken element by element, each as its string; a string is split on `,` into comma-free pieces that join back to it |
| Extraction.Flatten | src/Paxx/Gettext/Commands/GettextCommand.php:87-89 | a path is in the merged additional listings exactly when it is in one of them |
| Extraction.FileList | src/Paxx/Gettext/Commands/GettextCommand.php:73-93 | the files are the non-Blade views, then the cache listing, then the additional listings, in that order and nothing else |
| Extraction.XgettextBinary | src/Paxx/Gettext/Commands/GettextCommand.php:117 | the binary, prefixed by the binary path and a separator unless the path `== ''` |
| Extraction.Present | src/Paxx/Gettext/Commands/GettextCommand.php:126-156 | each optional flag contributes at most one argument |
| Extraction.AppendFlag | src/Paxx/Gettext/Commands/GettextCommand.php:126-156 | appending one flag's argument when it is on extends the arguments of the flags before it, in table order |
| Extraction.KeywordArgs | src/Paxx/Gettext/Commands/GettextCommand.php:159-160 | one argument per configured keyword, each the literal `--keyword=$k` |
| Extraction.KeywordArgsIntended | src/Paxx/Gettext/Commands/GettextCommand.php:159-160 | one argument per configured keyword (corrected form) |
| Extraction.ForcePoPassed | src/Paxx/Gettext/Commands/GettextCommand.php:130-131 | with the option exactly `true`, the vector holds `--force-po` |
| Extraction.XgettextArgsLayout | src/Paxx/Gettext/Commands/GettextCommand.php:114-163 | the vector is binary, `--output=`, `--language=PHP`, the set flags, one keyword argument per keyword, the files; its length is 3 + flags + keywords + files |
| ExtractionReading.ReadHead | src/Paxx/Gettext/Commands/GettextCommand.php:120-124 | the fixed arguments tell xgettext the output file and the language PHP |
| ExtractionReading.ReadFlags | src/Paxx/Gettext/Commands/GettextCommand.php:126-156 | the optional flags tell xgettext exactly the option values that are set; `--force-po` only when the option is `=== true` |
| ExtractionReading.ReadKeywordArgs | src/Paxx/Gettext/Commands/GettextCommand.php:159-160 | as written, xgettext is asked for the keyword `$k` once per configured keyword |
| ExtractionReading.ReadKeywordArgsIntended | src/Paxx/Gettext/Commands/GettextCommand.php:159-160 | interpolated, xgettext is asked for exactly the configured keywords |
| ExtractionReading.ReadPlainFiles | src/Paxx/Gettext/Commands/GettextCommand.php:163 | file names that do not start with `--` are read as the input files, in order |
| ExtractionReading.XgettextArgsRead | src/Paxx/Gettext/Commands/GettextCommand.php:114-163 | reading the vector back recovers output, language, every set flag and the files; the keywords all read as `$k` |
| ExtractionReading.XgettextArgsIntendedRead | src/Paxx/Gettext/Commands/GettextCommand.php:114-163 | with interpolated keywords, reading the vector back recovers exactly the requested invocation |
| ExtractionReading.KeywordLiteralLosesKeywords | src/Paxx/Gettext/Commands/GettextCommand.php:160 | for keywords `_` and `gettext`, the vector as written asks for `$k` twice, and the corrected one asks for `_` and `gettext` |
| Merging.MergedLocales | src/Paxx/Gettext/Commands/GettextCommand.php:247-251 | the merged locales are the configured ones without the first |
| Merging.MergeAllSnoc | src/Paxx/Gettext/Commands/GettextCommand.php:260-304 | one more locale means one more iteration, unless the loop has already thrown |
| Merging.MergeAllFailsInMsgmerge | src/Paxx/Gettext/Commands/GettextCommand.php:301-303 | the only exception the loop raises is `MsgmergeException` |
| Merging.MergeAllStopsAtFailure | src/Paxx/Gettext/Commands/GettextCommand.php:302 | once a prefix of the locales has thrown, the remaining locales change nothing |
| Merging.MergeAllFailure | src/Paxx/Gettext/Commands/GettextCommand.php:260-304 | on failure there is a locale k such that every earlier locale succeeded, and the state is what locale k's iteration left on top of theirs: no rollback |
| Merging.MergeLocaleFrame | src/Paxx/Gettext/Commands/GettextCommand.php:262-303 | one iteration changes and creates files only in its locale folder, adds that folder, and runs at most msgmerge on it |
| Merging.MergeAllFiles | src/Paxx/Gettext/Commands/GettextCommand.php:260-304 | files outside the merged locales' folders are unchanged, and every new file lies in one of them |
| Merging.MergeAllDirs | src/Paxx/Gettext/Commands/GettextCommand.php:266-267 | the loop keeps every folder and adds only locale folders |
| Merging.MergeAllRuns | src/Paxx/Gettext/Commands/GettextCommand.php:282-293 | the loop appends at most one run per locale, each the msgmerge vector of one locale |
| Merging.TargetIsNotTemplate | src/Paxx/Gettext/Commands/GettextCommand.php:262-263 | no locale's file is the template |
| Merging.TemplateOutsideLocaleDirs | src/Paxx/Gettext/Commands/GettextCommand.php:244-263 | with a textdomain free of `/`, the template lies in no locale folder |
| Merging.TargetsDistinct | src/Paxx/Gettext/Commands/GettextCommand.php:262-263 | locales with different names have different files |
| Merging.TempIsNoTarget | src/Paxx/Gettext/Commands/GettextCommand.php:279-300 | the temporary file is no locale's file unless the textdomain is `temp` or holds `/` |
| Merging.MergeAllSeeds | src/Paxx/Gettext/Commands/GettextCommand.php:266-276 | when no locale has its file yet, the loop runs nothing and succeeds; it keeps every file and gives each locale its folder and a copy of the template |
| Merging.MergeAllNewFilesAreTargets | src/Paxx/Gettext/Commands/GettextCommand.php:270-300 | after a successful loop, every new file is a locale's file: no temporary file is left behind |
| Merging.MergeAllLeavesNoTemp | src/Paxx/Gettext/Commands/GettextCommand.php:300 | after a successful loop, a locale's `temp.pot` exists only if it existed before |
| Merging.MergeLocaleMerges | src/Paxx/Gettext/Commands/GettextCommand.php:270-303 | when the locale's file exists, one iteration runs msgmerge once; on success the temporary file is gone and the file holds what msgmerge wrote, on failure the file is unchanged and the exception carries the vector |
| Merging.MergeAllKeeps | src/Paxx/Gettext/Commands/GettextCommand.php:260-304 | the loop leaves unchanged every file that is not a merged locale's own file or temporary file |
| Merging.MergeAllRunsExisting | src/Paxx/Gettext/Commands/GettextCommand.php:282-293 | after a successful loop over distinct locales, the runs added are exactly the msgmerge vectors of the locales whose file existed, in locale order |
| Merging.MergeAllUpdatesTargets | src/Paxx/Gettext/Commands/GettextCommand.php:260-304 | after a successful loop over distinct locales, each existing file holds what its msgmerge run wrote, and each missing one a copy of the template |
| Merging.MsgmergeReadsMessagesPot | src/Paxx/Gettext/Commands/GettextCommand.php:282-286 | as written, msgmerge reads from the file it writes exactly when the textdomain is `messages` |
| Merging.MsgmergeIntendedUpdatesTarget | src/Paxx/Gettext/Commands/GettextCommand.php:282-286 | corrected, msgmerge reads the locale's own file and writes it back, whatever the textdomain |
| Pipeline.WithoutListed | src/Paxx/Gettext/Commands/GettextCommand.php:195-206 | the cleanup keeps exactly the files the cache listing does not return, with their contents |
| Pipeline.NoSourcesNoFiles | src/Paxx/Gettext/Commands/GettextCommand.php:96-100 | with no listed file in any searched folder, the file list is empty |
| Pipeline.NoFilesNoSources | src/Paxx/Gettext/Commands/GettextCommand.php:65-100 | an empty file list means no searched folder has a listed file |
| Pipeline.FireNoSources | src/Paxx/Gettext/Commands/GettextCommand.php:96-100 | `NoViewsFoundException` is raised exactly when no searched folder has a listed file, and then nothing has changed and no process has run |
| Pipeline.FireRunsXgettextFirst | src/Paxx/Gettext/Commands/GettextCommand.php:163-170 | when there are files, the first process run is xgettext with the built vector |
| Pipeline.FireXgettextFails | src/Paxx/Gettext/Commands/GettextCommand.php:165-175 | once files are found, `XgettextException` is raised exactly when xgettext fails, with its exit code and vector; nothing else then runs, and the files are as the compile step left them |
| Pipeline.ExtractMsgmergeGated | src/Paxx/Gettext/Commands/GettextCommand.php:172-183 | msgmerge runs only when the msgmerge option is set and xgettext succeeded, at most once per merged locale |
| Pipeline.ExtractKeepsTemplate | src/Paxx/Gettext/Commands/GettextCommand.php:120-183 | after a successful xgettext run the template holds what xgettext wrote, or is as before when it wrote nothing, whatever the merge does |
| Pipeline.ForcePoWritesTemplate | src/Paxx/Gettext/Commands/GettextCommand.php:130-170 | with `force_po` exactly `true`, a successful xgettext run always leaves the template holding what it wrote |
| Pipeline.FireCleanup | src/Paxx/Gettext/Commands/GettextCommand.php:185-187 | the cleanup removes exactly the listed cache files, only when asked and nothing failed; it changes no other file, folder or run |
| Command.GettextCommand.constructor | src/Paxx/Gettext/Commands/GettextCommand.php:45-50 | a fresh command with an empty process builder |
| Command.GettextCommand.RunProcess | src/Paxx/Gettext/Commands/GettextCommand.php:166-170 | the builder now holds the vector and the run is recorded; on success the output file holds what the process wrote, if it wrote anything, and otherwise no file changes |
| Command.GettextCommand.Compile | src/Paxx/Gettext/Commands/GettextCommand.php:215-227 | the files become `CompileAll` of the Blade views |
| Command.GettextCommand.CollectFiles | src/Paxx/Gettext/Commands/GettextCommand.php:68-93 | the listings are those of the filesystem and the files are their `FileList` |
| Command.GettextCommand.AppendWhen | src/Paxx/Gettext/Commands/GettextCommand.php:126-156 | one conditional append keeps the vector equal to the head and the arguments of the flags tested so far |
| Command.GettextCommand.BuildXgettextArguments | src/Paxx/Gettext/Commands/GettextCommand.php:114-163 | the vector built equals `XgettextArgs` |
| Command.GettextCommand.MergeLocaleStep | src/Paxx/Gettext/Commands/GettextCommand.php:262-303 | one iteration changes disk, runs and exception as `MergeLocale` says |
| Command.GettextCommand.Merge | src/Paxx/Gettext/Commands/GettextCommand.php:235-307 | the loop changes disk, runs and exception as `MergeAll` says |
| Command.GettextCommand.Cleanup | src/Paxx/Gettext/Commands/GettextCommand.php:195-206 | deletes exactly the files the listing of the cache folder returns |
| Command.GettextCommand.Fire | src/Paxx/Gettext/Commands/GettextCommand.php:57-188 | the listings are the filesystem's, and the exception, files, folders and runs are those of `FireOutcome` |
| Runtime.InitialLocale | src/Paxx/Gettext/Gettext.php:42-47 | the first configured locale, or false when the list is empty |
| Runtime.BaseLocaleNotMerged | src/Paxx/Gettext/Gettext.php:42-47 | the configured list is the runtime's first locale followed by exactly the locales the command merges |
| Runtime.Candidates | src/Paxx/Gettext/Gettext.php:119-124 | one candidate per encoding, plus one |
| Runtime.CandidatesSplit | src/Paxx/Gettext/Gettext.php:119-124 | each candidate but the last is the locale, a dot and that encoding, in order; the last is the bare locale |
| Runtime.SetlocaleCall | src/Paxx/Gettext/Gettext.php:126 | the multi-candidate `setlocale` returns false or a locale name |
| Runtime.SetlocaleCallFirstAccepted | src/Paxx/Gettext/Gettext.php:126 | the call returns false exactly when every candidate is refused, and otherwise the name reported for the first accepted candidate |
| Runtime.FailureMessageNamesCandidates | src/Paxx/Gettext/Gettext.php:127 | splitting the bracketed part of the exception message gives back exactly the candidates |
| Runtime.SetLocaleRaises | src/Paxx/Gettext/Gettext.php:126-128 | raises exactly when every candidate is refused or the first accepted one is reported as `""` or `"0"`, and then names all the candidates |
| Runtime.Gettext.constructor | src/Paxx/Gettext/Gettext.php:16-30 | the fields start with no locale, no encodings, target `LC_ALL` |
| Runtime.Gettext.Construct | src/Paxx/Gettext/Gettext.php:37-58 | creates the translation folder, stores the encodings as `(array)`, and when `setlocale` is on raises what `setLocale` of the first configured locale raises |
| Runtime.Gettext.SetTextdomain | src/Paxx/Gettext/Gettext.php:67-85 | the folder `<app>/<path>` exists afterwards; no file changes |
| Runtime.Gettext.SetEncoding | src/Paxx/Gettext/Gettext.php:93-99 | the encodings become `(array)` of the value; no other field changes |
| Runtime.Gettext.SetLocale | src/Paxx/Gettext/Gettext.php:108-131 | raises what `SetLocaleOutcome` says for the stored encodings and target, and changes no field |

## Left out

- Windows: `DIRECTORY_SEPARATOR` is fixed to `/`.
- The console output of the command (`comment`, `info`) is not modelled.
- `getOptions` (src/Paxx/Gettext/Commands/GettextCommand.php:314-356) and the console's option parsing are not modelled. The options reach the model already defaulted, as an `Options` value.
- The service provider (src/Paxx/Gettext/GettextServiceProvider.php) is not modelled: it only registers the command and the helper with the framework.
- The exception messages of `XgettextException` and `MsgmergeException` are not modelled. They are built from the exit code, its text and the shell-escaped command line; the model carries the exit code and the argument vector instead.
- `NoViewsFoundException` carries the two folders, not the formatted message.
- What an external program does besides writing its output file on success is not modelled: what it reads, and partial output on failure.
- Extraction.CompileAllContents is proved only when distinct views have distinct digests (no md5 collision) and no view is itself a compiled file. Otherwise a later view can overwrite an earlier one's compiled file.
- Option values are null, booleans or strings. Integer and float values (`'no_location' => 0`, say) are not modelled. PHP's truthiness and loose `== ''` comparison treat them differently from strings.
- Blade compilation internals: the digest of the compiled name (md5 in Laravel 4) and the compiled text are an oracle.
- The Finder's default filters are modelled on the path relative to the listed folder. Symfony applies the dot-file rule to that relative path too; the version-control rule is modelled as a folder-name test on the same path.
- Fs.Filesystem.AllFiles: listing a folder that does not exist gives no files. Symfony's Finder raises an exception there, and the model does not capture that exception.
- Fs.Filesystem.MakeDirectory: adds only the named folder, not its missing parents. Permissions are not modelled.
- Fs.Filesystem.Copy: copying a missing file changes nothing. PHP's warning is not modelled.
- The OS calls `putenv`, `bindtextdomain` and `textdomain` are not modelled, nor the `Log` warnings (src/Paxx/Gettext/Gettext.php:76-79, 110-116).
- The C library's `setlocale`, including its special names `""` and `"0"`, is an oracle.
- The default argument `''` of `setLocale` is not modelled; callers pass the locale.
- Runtime.Gettext.Construct: a Dafny constructor cannot return the exception `setLocale` raises. So `__construct` is a constructor that sets the field defaults, followed by the static method `Construct`, which does the body.
- Runtime.Gettext: the `locale` field is never assigned by the code, so it stays null in the model.
- Merging.MergeAllLeavesNoTemp and Merging.TempIsNoTarget are proved only for textdomains that hold no `/` and are not `temp`. With textdomain `temp`, the locale's file is `temp.pot` itself, and a successful merge deletes it.
- Merging.TemplateOutsideLocaleDirs, Pipeline.ExtractKeepsTemplate and Pipeline.ForcePoWritesTemplate are proved only for textdomains without `/`.
- Merging.MergeLocaleMerges, Merging.MergeAllRunsExisting and Merging.MergeAllUpdatesTargets are proved only for textdomains that hold no `/` and are not `temp`, and the last two only for distinct locale names, for the reasons above.
- Merging.MergeAllSeeds is proved only for distinct locale names. With a repeated locale, the second occurrence finds the seeded file and runs msgmerge.

## Findings

The command as modelled (`Extraction.XgettextArgs`, `Merging.MergeLocale`, `Command.GettextCommand.Fire`) follows the code as written. The corrected definitions are separate functions, and the intended property is proved about them.

| source | as written | input that shows it | evidently intended | confidence | as-written member | corrected member |
|---|---|---|---|---|---|---|
| src/Paxx/Gettext/Commands/GettextCommand.php:160 | the single-quoted `'--keyword=$k'` is not interpolated, so every keyword becomes the argument `--keyword=$k` | keywords `_` and `gettext`: xgettext is asked for the keyword `$k` twice | `"--keyword=$k"`: each configured keyword passed to xgettext | high, not executed | ExtractionReading.KeywordLiteralLosesKeywords | ExtractionReading.XgettextArgsIntendedRead |
| src/Paxx/Gettext/Commands/GettextCommand.php:283 | msgmerge's existing-translations input is always `<locale_dir>messages.pot` | textdomain `app`: msgmerge reads `<locale_dir>messages.pot` but writes `<locale_dir>app.pot`, so the existing translations in `app.pot` are not merged | the first input is the locale's own file `$textdomain_file` | high, not executed | Merging.MsgmergeReadsMessagesPot | Merging.MsgmergeIntendedUpdatesTarget |
