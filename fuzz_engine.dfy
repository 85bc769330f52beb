/**
 * `fuzz_url`: validate the base URL, build the candidates, request each one
 * in order, record every completed response other than 404 as
 * `"<url> - Status Code: <code>"`, and write the recorded lines to the
 * output file when one is named.
 *
 * The network is a sequence of outcomes, one per candidate, in request order;
 * `urlparse` and `urljoin` are parameters (see UrlValidator).
 */
module FuzzEngine {
  import opened Wrappers
  import Text
  import opened UrlValidator
  import CandidateGenerator
  import ResultSink

  /**
   * What one request produced: a completed response with its status code,
   * a `requests` exception (timeout, connection, DNS, TLS), or any other exception.
   */
  datatype Outcome = Status(code: nat) | NetError | OtherError

  /** The one status that is never recorded. */
  const NotFound: nat := 404

  const StatusLabel: string := " - Status Code: "

  /** A request whose outcome is recorded: it completed, with any status but 404. */
  predicate Recorded(o: Outcome)
  {
    o.Status? && o.code != NotFound
  }

  /** The recorded line `f"{fuzzed_url} - Status Code: {status_code}"`. */
  function ResultLine(url: string, code: nat): string
  {
    url + StatusLabel + Text.NatToDecimal(code)
  }

  /**
   * Reads a recorded line back into its URL and status code: the trailing
   * digits are the code and the label must sit right before them.
   */
  function ParseResultLine(line: string): Option<(string, nat)>
  {
    var n := Text.TrailingDigits(line);
    var head := line[..|line| - n];
    if n == 0 || |head| < |StatusLabel| || head[|head| - |StatusLabel|..] != StatusLabel then None
    else
      Some((head[..|head| - |StatusLabel|], Text.DecimalValue(line[|line| - n..])))
  }

  /** Every recorded line can be read back into the URL and the status code it was made from. */
  lemma ResultLineRoundTrip(url: string, code: nat)
    ensures ParseResultLine(ResultLine(url, code)) == Some((url, code))
  {
    var digits := Text.NatToDecimal(code);
    var head := url + StatusLabel;
    var line := head + digits;
    assert head[|head| - 1] == ' ';
    Text.TrailingDigitsAfter(head, digits);
    assert line[..|line| - |digits|] == head;
    assert line[|line| - |digits|..] == digits;
    assert head[|head| - |StatusLabel|..] == StatusLabel;
    assert head[..|head| - |StatusLabel|] == url;
    Text.DecimalRoundTrip(code);
  }

  /** Every candidate resolves: none of the `urljoin` calls raises. */
  predicate AllResolve(baseUrl: string, paths: seq<string>, join: Joiner)
  {
    forall k :: 0 <= k < |paths| ==> join(baseUrl, paths[k]).Some?
  }

  /**
   * Position of the first candidate whose `urljoin` raises, or `|paths|`. That
   * exception is not caught inside the loop (line 107 is outside the inner
   * `try`), so the loop stops there.
   */
  function FirstUnresolved(baseUrl: string, paths: seq<string>, join: Joiner): (n: nat)
    ensures n <= |paths|
    ensures AllResolve(baseUrl, paths[..n], join)
    ensures n < |paths| ==> join(baseUrl, paths[n]).None?
    decreases |paths|
  {
    if paths == [] then 0
    else if join(baseUrl, paths[0]).None? then 0
    else
      var rest := FirstUnresolved(baseUrl, paths[1..], join);
      assert paths[..1 + rest] == [paths[0]] + paths[1..][..rest];
      1 + rest
  }

  /** The lines recorded for `paths`, requested in order with the given outcomes (lines 106-116). */
  function Results(baseUrl: string, paths: seq<string>, outcomes: seq<Outcome>, join: Joiner): seq<string>
    requires |paths| == |outcomes| && AllResolve(baseUrl, paths, join)
    decreases |paths|
  {
    if paths == [] then []
    else
      var n := |paths| - 1;
      assert AllResolve(baseUrl, paths[..n], join) by {
        forall k | 0 <= k < n ensures join(baseUrl, paths[..n][k]).Some? {
          assert paths[..n][k] == paths[k];
        }
      }
      Results(baseUrl, paths[..n], outcomes[..n], join)
      + (if Recorded(outcomes[n]) then [ResultLine(join(baseUrl, paths[n]).value, outcomes[n].code)] else [])
  }

  /** Positions, in increasing order, of the requests whose outcome is recorded. */
  function RecordedPositions(outcomes: seq<Outcome>): seq<nat>
    decreases |outcomes|
  {
    if outcomes == [] then []
    else
      var n := |outcomes| - 1;
      RecordedPositions(outcomes[..n]) + (if Recorded(outcomes[n]) then [n] else [])
  }

  /**
   * A candidate's position is listed exactly when its outcome is recorded, in
   * increasing order, so there are never more positions than requests.
   */
  lemma {:induction false} RecordedPositionsExact(outcomes: seq<Outcome>)
    ensures |RecordedPositions(outcomes)| <= |outcomes|
    ensures forall k :: 0 <= k < |RecordedPositions(outcomes)| ==>
              RecordedPositions(outcomes)[k] < |outcomes| && Recorded(outcomes[RecordedPositions(outcomes)[k]])
    ensures forall k, l :: 0 <= k < l < |RecordedPositions(outcomes)| ==>
              RecordedPositions(outcomes)[k] < RecordedPositions(outcomes)[l]
    ensures forall i :: 0 <= i < |outcomes| ==> (Recorded(outcomes[i]) <==> i in RecordedPositions(outcomes))
    decreases |outcomes|
  {
    if outcomes != [] {
      var n := |outcomes| - 1;
      var front := outcomes[..n];
      RecordedPositionsExact(front);
      assert forall i :: 0 <= i < n ==> front[i] == outcomes[i];
    }
  }

  /**
   * The recorded lines are an order-preserving selection of the candidates:
   * the k-th line belongs to the k-th recorded position, and carries that
   * candidate's resolved URL and status code.
   */
  lemma {:induction false} ResultsFollowRecordedPositions(baseUrl: string, paths: seq<string>,
                                                         outcomes: seq<Outcome>, join: Joiner)
    requires |paths| == |outcomes| && AllResolve(baseUrl, paths, join)
    ensures |Results(baseUrl, paths, outcomes, join)| == |RecordedPositions(outcomes)|
    ensures forall k :: 0 <= k < |RecordedPositions(outcomes)| ==>
              var i := RecordedPositions(outcomes)[k];
              i < |paths| && outcomes[i].Status?
              && Results(baseUrl, paths, outcomes, join)[k] == ResultLine(join(baseUrl, paths[i]).value, outcomes[i].code)
    decreases |paths|
  {
    RecordedPositionsExact(outcomes);
    if paths != [] {
      var n := |paths| - 1;
      assert AllResolve(baseUrl, paths[..n], join) by {
        forall k | 0 <= k < n ensures join(baseUrl, paths[..n][k]).Some? {
          assert paths[..n][k] == paths[k];
        }
      }
      ResultsFollowRecordedPositions(baseUrl, paths[..n], outcomes[..n], join);
      RecordedPositionsExact(outcomes[..n]);
      var front := RecordedPositions(outcomes[..n]);
      forall k | 0 <= k < |front|
        ensures paths[..n][front[k]] == paths[front[k]] && outcomes[..n][front[k]] == outcomes[front[k]]
      {
      }
    }
  }

  /** A request that fails or answers 404 records nothing and does not stop the loop. */
  lemma SkippedRequestContinues(baseUrl: string, paths: seq<string>, outcomes: seq<Outcome>,
                                join: Joiner, path: string, outcome: Outcome)
    requires |paths| == |outcomes| && join(baseUrl, path).Some? && AllResolve(baseUrl, paths, join)
    requires !Recorded(outcome)
    ensures AllResolve(baseUrl, [path] + paths, join)
    ensures Results(baseUrl, [path] + paths, [outcome] + outcomes, join)
            == Results(baseUrl, paths, outcomes, join)
  {
    ResultsAfterFirst(baseUrl, path, paths, outcome, outcomes, join);
  }

  /** Requesting one more candidate first prepends its line, if recorded, to the rest. */
  lemma {:induction false} ResultsAfterFirst(baseUrl: string, path: string, paths: seq<string>,
                                             outcome: Outcome, outcomes: seq<Outcome>, join: Joiner)
    requires |paths| == |outcomes| && join(baseUrl, path).Some? && AllResolve(baseUrl, paths, join)
    ensures AllResolve(baseUrl, [path] + paths, join)
    ensures Results(baseUrl, [path] + paths, [outcome] + outcomes, join)
            == (if Recorded(outcome) then [ResultLine(join(baseUrl, path).value, outcome.code)] else [])
               + Results(baseUrl, paths, outcomes, join)
    decreases |paths|
  {
    assert forall k :: 0 <= k < |paths| ==> paths[k] == ([path] + paths)[k + 1];
    var first := if Recorded(outcome) then [ResultLine(join(baseUrl, path).value, outcome.code)] else [];
    if paths != [] {
      var n := |paths| - 1;
      assert ([path] + paths)[..n + 1] == [path] + paths[..n];
      assert ([outcome] + outcomes)[..n + 1] == [outcome] + outcomes[..n];
      assert AllResolve(baseUrl, [path] + paths[..n], join) by {
        forall k | 0 <= k < n + 1 ensures join(baseUrl, ([path] + paths[..n])[k]).Some? {
          assert ([path] + paths[..n])[k] == ([path] + paths)[k];
        }
      }
      ResultsAfterFirst(baseUrl, path, paths[..n], outcome, outcomes[..n], join);
    } else {
      assert [path] + paths == [path];
      assert ([path] + paths)[..0] == [];
    }
  }

  /**
   * The request loop (lines 106-116): resolve each candidate, record the line
   * for every completed non-404 response, skip failed requests and go on; stop
   * at the first candidate whose resolution raises. `completed` is false when
   * the loop stopped early.
   */
  method RequestAll(baseUrl: string, paths: seq<string>, outcomes: seq<Outcome>, join: Joiner)
    returns (results: seq<string>, completed: bool)
    requires |paths| == |outcomes|
    ensures completed <==> FirstUnresolved(baseUrl, paths, join) == |paths|
    ensures results == Results(baseUrl, paths[..FirstUnresolved(baseUrl, paths, join)],
                               outcomes[..FirstUnresolved(baseUrl, paths, join)], join)
  {
    results := [];
    completed := true;
    var i := 0;
    while i < |paths|
      invariant 0 <= i <= |paths|
      invariant AllResolve(baseUrl, paths[..i], join)
      invariant results == Results(baseUrl, paths[..i], outcomes[..i], join)
    {
      var fuzzedUrl := join(baseUrl, paths[i]);
      if fuzzedUrl.None? {
        completed := false;
        break;
      }
      match outcomes[i] {
        case Status(code) =>
          if code != NotFound {
            results := results + [ResultLine(fuzzedUrl.value, code)];
          }
        case NetError =>
        case OtherError =>
      }
      assert paths[..i + 1][..i] == paths[..i] && outcomes[..i + 1][..i] == outcomes[..i];
      i := i + 1;
    }
    assert i == FirstUnresolved(baseUrl, paths, join);
  }

  /** How one call of `fuzz_url` ends. */
  datatype FuzzReport =
    | InvalidBaseUrl
      /** A `urljoin` raised: the loop stopped and nothing was written. */
    | Aborted(candidates: seq<string>, recorded: seq<string>)
    | Completed(candidates: seq<string>, results: seq<string>, written: Option<ResultSink.FileWrite>)

  /** What `fuzz_url` does, as a function of its inputs and of the network's answers. */
  function FuzzOutcome(baseUrl: string, wordlist: Option<seq<string>>, extensions: Option<seq<string>>,
                       directories: Option<seq<string>>, outputFile: Option<string>,
                       parse: Parser, join: Joiner, network: seq<Outcome>): FuzzReport
    requires IsValidUrl(baseUrl, parse) ==>
               |network| == |CandidateGenerator.Candidates(wordlist, extensions, directories)|
  {
    if !IsValidUrl(baseUrl, parse) then InvalidBaseUrl
    else
      var paths := CandidateGenerator.Candidates(wordlist, extensions, directories);
      var n := FirstUnresolved(baseUrl, paths, join);
      var results := Results(baseUrl, paths[..n], network[..n], join);
      if n < |paths| then Aborted(paths, results)
      else Completed(paths, results, ResultSink.Output(outputFile, results))
  }

  /** `fuzz_url` (lines 82-130), step by step. */
  method FuzzUrl(baseUrl: string, wordlist: Option<seq<string>>, extensions: Option<seq<string>>,
                 directories: Option<seq<string>>, outputFile: Option<string>,
                 parse: Parser, join: Joiner, network: seq<Outcome>)
    returns (report: FuzzReport)
    requires IsValidUrl(baseUrl, parse) ==>
               |network| == |CandidateGenerator.Candidates(wordlist, extensions, directories)|
    ensures report == FuzzOutcome(baseUrl, wordlist, extensions, directories, outputFile, parse, join, network)
  {
    if !IsValidUrl(baseUrl, parse) {
      return InvalidBaseUrl;
    }
    var allPaths := CandidateGenerator.BuildCandidates(wordlist, extensions, directories);
    var results, completed := RequestAll(baseUrl, allPaths, network, join);
    if !completed {
      return Aborted(allPaths, results);
    }
    var written: Option<ResultSink.FileWrite> := None;
    if outputFile.Some? && outputFile.value != "" {
      var content := ResultSink.WriteLines(results);
      written := Some(ResultSink.FileWrite(outputFile.value, content));
    }
    report := Completed(allPaths, results, written);
  }

  /**
   * How a run ends: an invalid URL stops it before any request; otherwise it
   * completes exactly when every candidate resolves, with one recorded line per
   * recorded response and a file written exactly when an output path is named;
   * an aborted run writes nothing and has recorded only lines of requests made
   * before the candidate that failed to resolve.
   */
  lemma FuzzOutcomeCases(baseUrl: string, wordlist: Option<seq<string>>, extensions: Option<seq<string>>,
                         directories: Option<seq<string>>, outputFile: Option<string>,
                         parse: Parser, join: Joiner, network: seq<Outcome>)
    requires IsValidUrl(baseUrl, parse) ==>
               |network| == |CandidateGenerator.Candidates(wordlist, extensions, directories)|
    ensures var r := FuzzOutcome(baseUrl, wordlist, extensions, directories, outputFile, parse, join, network);
            var paths := CandidateGenerator.Candidates(wordlist, extensions, directories);
            && (r.InvalidBaseUrl? <==> !IsValidUrl(baseUrl, parse))
            && (r.Completed? <==> IsValidUrl(baseUrl, parse) && AllResolve(baseUrl, paths, join))
            && (r.Completed? ==>
                  r.candidates == paths
                  && |r.results| == |RecordedPositions(network)|
                  && (r.written.Some? <==> outputFile.Some? && outputFile.value != ""))
            && (r.Aborted? ==>
                  r.candidates == paths
                  && |r.recorded| <= FirstUnresolved(baseUrl, paths, join) < |paths|)
  {
    if IsValidUrl(baseUrl, parse) {
      var paths := CandidateGenerator.Candidates(wordlist, extensions, directories);
      var n := FirstUnresolved(baseUrl, paths, join);
      ResultsFollowRecordedPositions(baseUrl, paths[..n], network[..n], join);
      RecordedPositionsExact(network[..n]);
      if n == |paths| {
        assert paths[..n] == paths && network[..n] == network;
      } else {
        assert !AllResolve(baseUrl, paths, join);
      }
    }
  }

  /**
   * The resolver never produces a URL with a line break in it (Python's
   * `urljoin` removes tab, CR and LF while splitting its arguments).
   */
  ghost predicate JoinsWithoutNewline(join: Joiner)
  {
    forall base, path :: join(base, path).Some? ==> '\n' !in join(base, path).value
  }

  /** A recorded line has a line break only if its URL has one. */
  lemma ResultLineWithoutNewline(url: string, code: nat)
    requires '\n' !in url
    ensures '\n' !in ResultLine(url, code)
  {
    var digits := Text.NatToDecimal(code);
    assert forall k :: 0 <= k < |digits| ==> digits[k] != '\n';
    assert ResultLine(url, code) == url + StatusLabel + digits;
  }

  /**
   * When URLs carry no line break, every recorded line is one line of the
   * output file: a completed run that writes a file writes exactly one newline
   * per recorded line, and reading the file back by lines gives the recorded
   * lines in order.
   */
  lemma CompletedFileHoldsResults(baseUrl: string, wordlist: Option<seq<string>>, extensions: Option<seq<string>>,
                                  directories: Option<seq<string>>, outputFile: Option<string>,
                                  parse: Parser, join: Joiner, network: seq<Outcome>)
    requires IsValidUrl(baseUrl, parse) ==>
               |network| == |CandidateGenerator.Candidates(wordlist, extensions, directories)|
    requires JoinsWithoutNewline(join)
    ensures var r := FuzzOutcome(baseUrl, wordlist, extensions, directories, outputFile, parse, join, network);
            r.Completed? && r.written.Some? ==>
              Text.SplitOn(r.written.value.content, '\n') == r.results + [""]
              && Text.Count(r.written.value.content, '\n') == |r.results|
  {
    var r := FuzzOutcome(baseUrl, wordlist, extensions, directories, outputFile, parse, join, network);
    if r.Completed? {
      var paths := CandidateGenerator.Candidates(wordlist, extensions, directories);
      var n := FirstUnresolved(baseUrl, paths, join);
      assert n == |paths| && paths[..n] == paths && network[..n] == network;
      var results := Results(baseUrl, paths, network, join);
      assert r.results == results;
      ResultsFollowRecordedPositions(baseUrl, paths, network, join);
      var positions := RecordedPositions(network);
      forall k | 0 <= k < |results|
        ensures '\n' !in results[k]
      {
        var i := positions[k];
        ResultLineWithoutNewline(join(baseUrl, paths[i]).value, network[i].code);
      }
      ResultSink.OutputHoldsResults(outputFile, results);
    }
  }
}
