/**
 * `main`: validate the URL, turn the command-line options into the optional
 * wordlist, extension and directory lists, refuse to run under `--no-common`
 * when none of them gives a target, and otherwise hand everything to
 * `fuzz_url`. Parsing the command line itself (`argparse`) is outside this
 * model: it enters as the `Args` it produced.
 */
module CliDriver {
  import opened Wrappers
  import Text
  import opened UrlValidator
  import WordlistReader
  import CandidateGenerator
  import FuzzEngine

  /**
   * The parsed command line: an option not given is `None`. `threads` and
   * `recursive` are accepted and never consulted.
   */
  datatype Args = Args(
    url: string,
    wordlist: Option<string>,
    extensions: Option<string>,
    directories: Option<string>,
    output: Option<string>,
    threads: int,
    noCommon: bool,
    recursive: bool)

  /** Reading the file at a path: the file system, outside the model. */
  type FileSystem = string -> WordlistReader.FileRead

  /** A string option is used only when it is truthy: given and non-empty. */
  predicate Given(arg: Option<string>)
  {
    arg.Some? && arg.value != ""
  }

  /**
   * `arg.split(',') if arg else None`: a given option becomes its
   * comma-separated fields, empty fields kept; joining them back with commas
   * gives the option text again.
   */
  function CsvArg(arg: Option<string>): (r: Option<seq<string>>)
    ensures r.Some? <==> Given(arg)
    ensures r.Some? ==> |r.value| == Text.Count(arg.value, ',') + 1
    ensures r.Some? ==> Text.JoinOn(r.value, ',') == arg.value
    ensures r.Some? ==> forall k :: 0 <= k < |r.value| ==> ',' !in r.value[k]
  {
    if Given(arg) then
      Text.SplitLength(arg.value, ',');
      Text.JoinSplit(arg.value, ',');
      Some(Text.SplitOn(arg.value, ','))
    else
      None
  }

  /** `read_wordlist(args.wordlist) if args.wordlist else None`. */
  function WordlistArg(arg: Option<string>, files: FileSystem): (r: Option<seq<string>>)
    ensures r.Some? <==> Given(arg)
    ensures r.Some? ==> r.value == WordlistReader.ReadWordlist(files(arg.value))
  {
    if Given(arg) then Some(WordlistReader.ReadWordlist(files(arg.value))) else None
  }

  /** At least one of the three lists is truthy. */
  predicate HasTargets(wordlist: Option<seq<string>>, extensions: Option<seq<string>>,
                       directories: Option<seq<string>>)
  {
    CandidateGenerator.Truthy(wordlist) || CandidateGenerator.Truthy(extensions)
    || CandidateGenerator.Truthy(directories)
  }

  /** How `main` ends before fuzzing, or the call to `fuzz_url` it makes. */
  datatype Decision =
    | InvalidUrl
    | NoTargets
    | Fuzz(url: string, wordlist: Option<seq<string>>, extensions: Option<seq<string>>,
           directories: Option<seq<string>>, output: Option<string>)

  /** `main` (lines 137-158), up to the call of `fuzz_url`. */
  function Decide(args: Args, parse: Parser, files: FileSystem): (d: Decision)
    ensures d.InvalidUrl? <==> !IsValidUrl(args.url, parse)
    ensures d.Fuzz? ==> !args.noCommon || HasTargets(d.wordlist, d.extensions, d.directories)
    ensures d.Fuzz? ==>
              d.url == args.url && d.output == args.output
              && d.wordlist == WordlistArg(args.wordlist, files)
              && d.extensions == CsvArg(args.extensions) && d.directories == CsvArg(args.directories)
  {
    if !IsValidUrl(args.url, parse) then InvalidUrl
    else
      var wordlist := WordlistArg(args.wordlist, files);
      var extensions := CsvArg(args.extensions);
      var directories := CsvArg(args.directories);
      if args.noCommon && !HasTargets(wordlist, extensions, directories) then NoTargets
      else Fuzz(args.url, wordlist, extensions, directories, args.output)
  }

  /**
   * A target exists exactly when the wordlist file gives at least one line, or
   * `--extensions` or `--directories` is given and non-empty.
   */
  lemma TargetsFromArguments(args: Args, files: FileSystem)
    ensures HasTargets(WordlistArg(args.wordlist, files), CsvArg(args.extensions), CsvArg(args.directories))
            <==> (Given(args.wordlist) && files(args.wordlist.value).Lines? && files(args.wordlist.value).lines != [])
                 || Given(args.extensions) || Given(args.directories)
  {
    if Given(args.wordlist) && files(args.wordlist.value).Lines? && files(args.wordlist.value).lines != [] {
      assert |WordlistReader.ReadWordlist(files(args.wordlist.value))| == |files(args.wordlist.value).lines|;
    }
  }

  /**
   * `main` calls `fuzz_url` exactly when the URL is valid and either
   * `--no-common` is off or some target was given; the call carries the URL
   * and the output path unchanged.
   */
  lemma DecisionCases(args: Args, parse: Parser, files: FileSystem)
    ensures Decide(args, parse, files).InvalidUrl? <==> !IsValidUrl(args.url, parse)
    ensures Decide(args, parse, files).NoTargets? <==>
              IsValidUrl(args.url, parse) && args.noCommon
              && !Given(args.extensions) && !Given(args.directories)
              && !(Given(args.wordlist) && files(args.wordlist.value).Lines? && files(args.wordlist.value).lines != [])
    ensures Decide(args, parse, files).Fuzz? ==>
              Decide(args, parse, files).url == args.url && Decide(args, parse, files).output == args.output
  {
    TargetsFromArguments(args, files);
  }

  /**
   * Under `--no-common` the built-in lists are never used: whenever `main`
   * reaches `fuzz_url`, the candidates are exactly the ones the options give,
   * and there is at least one.
   */
  lemma NoCommonNeverFallsBack(args: Args, parse: Parser, files: FileSystem)
    ensures var d := Decide(args, parse, files);
            args.noCommon && d.Fuzz? ==>
              CandidateGenerator.Candidates(d.wordlist, d.extensions, d.directories)
              == CandidateGenerator.Explicit(d.wordlist, d.extensions, d.directories)
              != []
  {
    var d := Decide(args, parse, files);
    if args.noCommon && d.Fuzz? {
      CandidateGenerator.FallbackExactlyWithoutTargets(d.wordlist, d.extensions, d.directories);
    }
  }

  /**
   * Without `--no-common`, the built-in extensions and directories are fuzzed
   * exactly when no option gives a target.
   */
  lemma FallbackWithoutTargets(args: Args, parse: Parser, files: FileSystem)
    requires !args.noCommon && IsValidUrl(args.url, parse)
    ensures Decide(args, parse, files).Fuzz?
    ensures var d := Decide(args, parse, files);
            (CandidateGenerator.Candidates(d.wordlist, d.extensions, d.directories)
             == CandidateGenerator.CommonExtensions + CandidateGenerator.CommonDirectories
             && CandidateGenerator.Explicit(d.wordlist, d.extensions, d.directories) == [])
            <==> !HasTargets(d.wordlist, d.extensions, d.directories)
  {
    var d := Decide(args, parse, files);
    CandidateGenerator.FallbackExactlyWithoutTargets(d.wordlist, d.extensions, d.directories);
  }

  /**
   * A wordlist file that is missing or unreadable counts as no wordlist at all:
   * the decision and the candidates are those of a run without `--wordlist`.
   */
  lemma MissingWordlistIsAbsent(args: Args, parse: Parser, files: FileSystem)
    requires Given(args.wordlist) && !files(args.wordlist.value).Lines?
    ensures var d, d' := Decide(args, parse, files), Decide(args.(wordlist := None), parse, files);
            (d.Fuzz? <==> d'.Fuzz?)
            && (d.Fuzz? ==> CandidateGenerator.Candidates(d.wordlist, d.extensions, d.directories)
                            == CandidateGenerator.Candidates(d'.wordlist, d'.extensions, d'.directories))
  {
    assert WordlistArg(args.wordlist, files) == Some([]);
  }

  /** `--threads` and `--recursive` change nothing about the run. */
  lemma ThreadsAndRecursiveInert(args: Args, parse: Parser, files: FileSystem, threads: int, recursive: bool)
    ensures Decide(args.(threads := threads, recursive := recursive), parse, files) == Decide(args, parse, files)
  {
  }

  /**
   * `fuzz_url` validates the URL again; after `main` has accepted it that
   * check always passes, so the run ends either aborted or completed.
   */
  lemma FuzzAfterDecisionRuns(args: Args, parse: Parser, join: Joiner, files: FileSystem,
                              network: seq<FuzzEngine.Outcome>)
    requires Decide(args, parse, files).Fuzz?
    requires var d := Decide(args, parse, files);
             |network| == |CandidateGenerator.Candidates(d.wordlist, d.extensions, d.directories)|
    ensures var d := Decide(args, parse, files);
            !FuzzEngine.FuzzOutcome(d.url, d.wordlist, d.extensions, d.directories, d.output,
                                   parse, join, network).InvalidBaseUrl?
  {
  }
}
