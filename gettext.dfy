/**
 * The runtime helper `Gettext`: it creates the translation folder, keeps the
 * preferred encodings and asks the C library for a locale, trying
 * `<locale>.<encoding>` for every encoding and then the bare locale.
 */
module Runtime {
  import opened Wrappers
  import opened Php
  import opened Fs
  import opened Merging

  /** The category `setlocale` is asked to change: LC_ALL, 6 in the GNU C library. */
  const LC_ALL: int := 6

  /** The configuration the constructor reads (`gettext::config`). */
  datatype RuntimeConfig = RuntimeConfig(
    locales: Value,
    encoding: Value,
    textdomain: string,
    path: string,
    setlocale: Scalar)

  datatype SetLocaleException = SetLocaleException(message: string)

  /**
   * The C library's `setlocale` for one candidate and a category: the name
   * of the locale now in effect, or None when the candidate is refused.
   */
  type LocaleSetter = (int, string) -> Option<string>

  /** `reset($locales)`: the first configured locale, or false when there is none. */
  function InitialLocale(locales: Value): (r: Scalar)
    ensures |Wrap(locales)| > 0 ==> r == Wrap(locales)[0]
    ensures |Wrap(locales)| == 0 ==> r == Bool(false)
  {
    var all := Wrap(locales);
    if |all| > 0 then all[0] else Bool(false)
  }

  /**
   * The locale the runtime starts with is exactly the one the merge of the
   * command leaves out: the configured list is that locale followed by the
   * merged ones.
   */
  lemma BaseLocaleNotMerged(locales: Value)
    requires |Wrap(locales)| > 0
    ensures Wrap(locales) == [InitialLocale(locales)] + MergedLocales(locales)
  {
    var all := Wrap(locales);
    assert all == [all[0]] + all[1..];
  }

  /** The candidates `setLocale` tries: `<locale>.<encoding>` per encoding, in order, then the bare locale. */
  function Candidates(locale: Scalar, encoding: seq<Scalar>): (r: seq<string>)
    ensures |r| == |encoding| + 1
  {
    seq(|encoding|, i requires 0 <= i < |encoding| => ToStr(locale) + "." + ToStr(encoding[i])) + [ToStr(locale)]
  }

  /**
   * Every candidate but the last splits at the end of the locale into the
   * locale, a dot and one encoding, in the encodings' order; the last is the
   * bare locale, whatever the encodings.
   */
  lemma CandidatesSplit(locale: Scalar, encoding: seq<Scalar>)
    ensures var r := Candidates(locale, encoding);
      var n := |ToStr(locale)|;
      && r[|encoding|] == ToStr(locale)
      && forall i :: 0 <= i < |encoding| ==>
           && |r[i]| > n
           && r[i][..n] == ToStr(locale)
           && r[i][n] == '.'
           && r[i][n + 1..] == ToStr(encoding[i])
  {
    var r := Candidates(locale, encoding);
    var n := |ToStr(locale)|;
    forall i | 0 <= i < |encoding|
      ensures |r[i]| > n && r[i][..n] == ToStr(locale) && r[i][n] == '.' && r[i][n + 1..] == ToStr(encoding[i])
    {
      assert r[i] == ToStr(locale) + "." + ToStr(encoding[i]);
    }
  }

  /**
   * PHP's `setlocale($category, ...$candidates)`: the candidates are tried
   * in order until one is accepted; the result is the name the library
   * reports for it, or false when every candidate is refused.
   */
  function SetlocaleCall(setter: LocaleSetter, category: int, candidates: seq<string>): (r: Scalar)
    ensures r == Bool(false) || r.Str?
    decreases |candidates|
  {
    if |candidates| == 0 then Bool(false)
    else match setter(category, candidates[0])
      case Some(name) => Str(name)
      case None => SetlocaleCall(setter, category, candidates[1..])
  }

  /**
   * The call fails exactly when every candidate is refused; otherwise it
   * reports the name given for the first candidate accepted.
   */
  lemma {:induction false} SetlocaleCallFirstAccepted(setter: LocaleSetter, category: int, candidates: seq<string>)
    ensures var r := SetlocaleCall(setter, category, candidates);
      && (r == Bool(false) <==> forall i :: 0 <= i < |candidates| ==> setter(category, candidates[i]).None?)
      && (r.Str? ==> exists k :: 0 <= k < |candidates| && setter(category, candidates[k]) == Some(r.s) &&
                       forall j :: 0 <= j < k ==> setter(category, candidates[j]).None?)
    decreases |candidates|
  {
    if |candidates| > 0 && setter(category, candidates[0]).None? {
      var rest := candidates[1..];
      SetlocaleCallFirstAccepted(setter, category, rest);
      var r := SetlocaleCall(setter, category, rest);
      assert forall i :: 0 <= i < |rest| ==> rest[i] == candidates[i + 1];
      if r.Str? {
        var k :| 0 <= k < |rest| && setter(category, rest[k]) == Some(r.s) &&
                 forall j :: 0 <= j < k ==> setter(category, rest[j]).None?;
        assert setter(category, candidates[k + 1]) == Some(r.s);
        forall j | 0 <= j < k + 1
          ensures setter(category, candidates[j]).None?
        {
          if j > 0 {
            assert candidates[j] == rest[j - 1];
          }
        }
      }
      if forall i :: 0 <= i < |rest| ==> setter(category, rest[i]).None? {
        forall i | 0 <= i < |candidates|
          ensures setter(category, candidates[i]).None?
        {
          if i > 0 {
            assert candidates[i] == rest[i - 1];
          }
        }
      }
    }
  }

  /** The message of the exception: every candidate, joined by commas, inside brackets. */
  function FailureMessage(candidates: seq<string>): string
  {
    "The locale(s) [" + Implode(',', candidates) + "] could not be set"
  }

  /** The part of a failure message between the brackets. */
  function Bracketed(message: string): string
    requires |message| >= 33
  {
    message[15..|message| - 18]
  }

  /** When no candidate holds a comma, the message names the candidates exactly: splitting it gives them back. */
  lemma FailureMessageNamesCandidates(candidates: seq<string>)
    requires |candidates| >= 1
    requires forall i :: 0 <= i < |candidates| ==> ',' !in candidates[i]
    ensures |FailureMessage(candidates)| >= 33
    ensures Explode(',', Bracketed(FailureMessage(candidates))) == candidates
  {
    var inner := Implode(',', candidates);
    var m := FailureMessage(candidates);
    assert m == "The locale(s) [" + inner + "] could not be set";
    assert m[15..|m| - 18] == inner;
    ExplodeImplode(',', candidates);
  }

  /** What `setLocale` raises, given the encodings the object holds. */
  function SetLocaleOutcome(setter: LocaleSetter, target: int, locale: Scalar, encoding: Option<seq<Scalar>>)
    : Option<SetLocaleException>
  {
    var candidates := Candidates(locale, if encoding.Some? then encoding.value else []);
    if Truthy(SetlocaleCall(setter, target, candidates)) then None
    else Some(SetLocaleException(FailureMessage(candidates)))
  }

  /**
   * `setLocale` raises exactly when every candidate is refused or the library
   * reports a locale name PHP reads as false ("" or "0"), and then the
   * message lists all the candidates.
   */
  lemma SetLocaleRaises(setter: LocaleSetter, target: int, locale: Scalar, encoding: Option<seq<Scalar>>)
    ensures var candidates := Candidates(locale, if encoding.Some? then encoding.value else []);
      var raised := SetLocaleOutcome(setter, target, locale, encoding);
      && (raised.Some? <==>
            (forall i :: 0 <= i < |candidates| ==> setter(target, candidates[i]).None?) ||
            (exists k :: 0 <= k < |candidates| && (setter(target, candidates[k]) == Some("") || setter(target, candidates[k]) == Some("0")) &&
               forall j :: 0 <= j < k ==> setter(target, candidates[j]).None?))
      && (raised.Some? ==> raised.value.message == FailureMessage(candidates))
  {
    var candidates := Candidates(locale, if encoding.Some? then encoding.value else []);
    SetlocaleCallFirstAccepted(setter, target, candidates);
    var r := SetlocaleCall(setter, target, candidates);
    if r.Str? {
      var k :| 0 <= k < |candidates| && setter(target, candidates[k]) == Some(r.s) &&
               forall j :: 0 <= j < k ==> setter(target, candidates[j]).None?;
      forall k' | 0 <= k' < |candidates| && setter(target, candidates[k']).Some? &&
                  forall j :: 0 <= j < k' ==> setter(target, candidates[j]).None?
        ensures k' == k
      {
      }
    }
  }

  class Gettext {
    /** The current locale; nothing in the class assigns it after construction. */
    var locale: Scalar
    /** The preferred encodings; null until `setEncoding`. */
    var encoding: Option<seq<Scalar>>
    /** The category `setlocale` changes. */
    var target: int
    /** The filesystem behind the `File` facade. */
    const fs: Filesystem
    /** `app_path()`. */
    const app: string
    const setter: LocaleSetter

    /** The fields' initial values. */
    constructor (fs: Filesystem, app: string, setter: LocaleSetter)
      ensures locale == Null && encoding == None && target == LC_ALL
      ensures this.fs == fs && this.app == app && this.setter == setter
    {
      locale := Null;
      encoding := None;
      target := LC_ALL;
      this.fs := fs;
      this.app := app;
      this.setter := setter;
    }

    /** `__construct`: the translation folder, the encodings, then the first locale when `setlocale` is on. */
    static method Construct(fs: Filesystem, app: string, setter: LocaleSetter, config: RuntimeConfig)
      returns (g: Gettext, raised: Option<SetLocaleException>)
      modifies fs
      ensures fresh(g) && g.fs == fs && g.app == app && g.setter == setter
      ensures g.locale == Null && g.target == LC_ALL
      ensures g.encoding == Some(CastToArray(config.encoding))
      ensures fs.dirs == old(fs.dirs) + {app + SEP + config.path} && fs.files == old(fs.files)
      ensures raised == if Truthy(config.setlocale)
                        then SetLocaleOutcome(setter, LC_ALL, InitialLocale(config.locales), g.encoding)
                        else None
    {
      var locales := Wrap(config.locales);
      var first := if |locales| > 0 then locales[0] else Bool(false);
      g := new Gettext(fs, app, setter);
      g.SetTextdomain(config.textdomain, config.path);
      g.SetEncoding(config.encoding);
      raised := None;
      if Truthy(config.setlocale) {
        raised := g.SetLocale(first);
      }
    }

    /** `setTextdomain`: the folder `<app>/<path>` is created when missing. */
    method SetTextdomain(textdomain: string, path: string)
      modifies fs
      ensures fs.dirs == old(fs.dirs) + {app + SEP + path} && fs.files == old(fs.files)
    {
      var fullPath := app + SEP + path;
      if !fs.IsDirectory(fullPath) {
        fs.MakeDirectory(fullPath);
      }
    }

    /** `setEncoding`: a scalar is stored as a one-element list, a list as it is, null as an empty list. */
    method SetEncoding(e: Value)
      modifies this
      ensures encoding == Some(CastToArray(e))
      ensures locale == old(locale) && target == old(target)
    {
      encoding := Some(CastToArray(e));
    }

    /** `setLocale`: tries every candidate; raises when none is accepted. It changes no field. */
    method SetLocale(locale: Scalar) returns (raised: Option<SetLocaleException>)
      ensures raised == SetLocaleOutcome(setter, target, locale, encoding)
    {
      var encodings := if encoding.Some? then encoding.value else [];
      var locales := seq(|encodings|, i requires 0 <= i < |encodings| => ToStr(locale) + "." + ToStr(encodings[i]));
      locales := locales + [ToStr(locale)];
      if !Truthy(SetlocaleCall(setter, target, locales)) {
        return Some(SetLocaleException(FailureMessage(locales)));
      }
      return None;
    }
  }
}
