/**
 * External processes (xgettext, msgmerge) and the exceptions the command
 * raises. A process is an oracle: given its argument vector it yields an
 * exit code and the text it writes to its output file, if it writes one.
 */
module Process {
  import opened Wrappers

  /**
   * What a run yields. `written` is None when the tool leaves its output
   * file alone: GNU xgettext and msgmerge write no file when they find no
   * message, unless they are passed `--force-po`.
   */
  datatype ProcessResult = ProcessResult(exitCode: int, written: Option<string>)

  /** `Process::isSuccessful()`: the exit code is zero. */
  predicate IsSuccessful(r: ProcessResult)
  {
    r.exitCode == 0
  }

  /** The tools write their output file whenever they succeed with `--force-po`. */
  ghost predicate HonoursForcePo(exec: seq<string> -> ProcessResult)
  {
    forall argv :: "--force-po" in argv && IsSuccessful(exec(argv)) ==> exec(argv).written.Some?
  }

  /**
   * The files after a run with output file `output`: what the tool wrote
   * when it succeeded and wrote something, the files as they were otherwise.
   */
  function AfterRun(files: map<string, string>, output: string, r: ProcessResult): (m: map<string, string>)
    ensures IsSuccessful(r) && r.written.Some? ==> output in m && m[output] == r.written.value
    ensures !IsSuccessful(r) || r.written.None? ==> m == files
    ensures forall p :: p != output ==> (p in m <==> p in files) && (p in files ==> m[p] == files[p])
  {
    if IsSuccessful(r) && r.written.Some? then files[output := r.written.value] else files
  }

  /**
   * The command's exceptions. The failures of the tools carry the exit code
   * and the command line, as their messages do.
   */
  datatype CommandError =
    | NoViewsFound(viewsFolder: string, cacheFolder: string)
    | XgettextFailed(exitCode: int, commandLine: seq<string>)
    | MsgmergeFailed(exitCode: int, commandLine: seq<string>)
}
