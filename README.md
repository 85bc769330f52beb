# URL fuzzing tool: a verified model

This project models `main.py` of an intelligent URL fuzzing tool. Given a base
URL, the tool builds a list of candidate paths from these sources:

- a wordlist file;
- a comma-separated list of extensions;
- a comma-separated list of directories;
- failing those, built-in lists of common extensions and directories.

It then requests every candidate against the base URL. Every response other
than `404` is recorded as `"<url> - Status Code: <code>"`. The recorded lines
can be saved to a file, one per line.

The model has one module per concern:

- `Text`: the Python string builtins the tool relies on. These are
  `str.split(',')` with its inverse `','.join`, `str.strip()` over Python's
  whitespace set, and `str(int)` for status codes.
- `UrlValidator`: `is_valid_url`. `urlparse` and `urljoin` are library code.
  They enter as function parameters, where `None` stands for the call raising.
- `WordlistReader`: `read_wordlist`. The file read enters as the lines it
  produced, or as one of its two failures.
- `CandidateGenerator`: the `COMMON_EXTENSIONS` and `COMMON_DIRECTORIES`
  constants and candidate generation in `fuzz_url`.
  - `Candidates` specifies it: words, then one block per extension over all
    words (or over `["index"]`), then directories, and the common lists only
    when all three are empty.
  - `BuildCandidates` is the loop, proved equal to that specification.
- `FuzzEngine`: the request loop and the whole of `fuzz_url`.
  - The network is a sequence of outcomes, one per request in order: a status
    code, a `requests` exception, or another exception.
  - `RequestAll` is the loop, proved equal to `Results`.
  - `FuzzUrl` is the function body, proved equal to `FuzzOutcome`.
- `ResultSink`: the output file. `WriteLines` is the write loop, proved equal to
  `Serialize`. `Output` decides whether a file is written and what it contains.
- `CliDriver`: `main`. It validates the URL, turns the options into optional
  lists (`CsvArg`, `WordlistArg`), and refuses to run under `--no-common` when
  no option gives a target. Otherwise it calls `fuzz_url`.

Python truthiness is modelled exactly. A missing optional list and an empty one
behave alike (`CandidateGenerator.Truthy`). A missing or unreadable wordlist file
produces `[]`, so it counts as no wordlist.

Two behaviours of the code are easy to misread and are modelled as written:

- `read_wordlist` strips whitespace at both ends of each line (`str.strip()`
  at main.py:62), not only the trailing newline.
- The `--no-common` option is enforced. When it is set and no target is given,
  `main` stops before fuzzing (main.py:149-152).

## Model

| member | source | states |
|---|---|---|
| `CandidateGenerator.BuildCandidates` | main.py:86-101 | The loop-built candidate list equals `Candidates`: words, extension blocks, directories, fallback when empty |
| `CandidateGenerator.ExtendWithExtensions` | main.py:91-93 | The extension loop appends exactly one block of `word.ext` per extension, in extension order |
| `CandidateGenerator.FallbackExactlyWithoutTargets` | main.py:98-101 | The common lists are used if and only if wordlist, extensions and directories are all falsy; they are then the 9 extensions followed by the 7 directories; otherwise the collected candidates stand unchanged |
| `CandidateGenerator.ExtensionsPreventFallback` | main.py:91-98 | A non-empty extension list alone yields at least one candidate per extension and rules out the fallback |
| `CandidateGenerator.CandidateLayout` | main.py:88-96 | The candidates are the words verbatim first, the directories verbatim last, and the extension block between them, of length extensions times bases |
| `CandidateGenerator.CandidateForExtension` | main.py:91-93 | Extensions are the outer loop and words the inner one: the candidate at words + i blocks + j is `word_j.ext_i` |
| `CandidateGenerator.CandidateCount` | main.py:86-101 | Exactly `W + E*max(W,1) + D` candidates, duplicates included, or 16 in the fallback |
| `CandidateGenerator.IndexWithoutWordlist` | main.py:93 | Without a wordlist each extension gives exactly `index.<ext>`, followed by the directories |
| `CandidateGenerator.ExampleMixedTargets` | main.py:88-96 | Words `a,b`, extension `php`, directory `admin` give `a, b, a.php, b.php, admin` |
| `CandidateGenerator.ExampleIndexJs` | main.py:93 | Extension `js` alone gives `index.js`; an empty wordlist or directory list counts as absent |
| `CandidateGenerator.ExampleNoDeduplication` | main.py:88-96 | Repeated entries are requested as many times as they occur |
| `CandidateGenerator.ExtensionBlockLength` | main.py:91-93 | The extension block has one entry per (extension, word) pair |
| `CandidateGenerator.ExtensionBlockAt` | main.py:92-93 | Entry `i*|words| + j` of the extension block is `words[j].exts[i]` |
| `UrlValidator.IsValidUrl` | main.py:43-47 | Valid only when parsing succeeds with non-empty scheme and network location; a parse that raises yields false |
| `WordlistReader.ReadWordlist` | main.py:60-68 | One word per line, in order, each the stripped line; a missing or unreadable file gives the empty list |
| `Text.Strip` | main.py:62 | The result is the input with a whitespace prefix and a whitespace suffix removed. It has no whitespace at either end, and it equals the input exactly when the input was already trimmed |
| `Text.JoinSplit` | main.py:146-147 | Joining the comma-split fields with commas gives the original text back |
| `Text.SplitJoin` | main.py:146-147 | Splitting fields joined with a separator they do not contain gives the fields back |
| `Text.SplitLength` | main.py:146-147 | Splitting yields one more field than there are separators, empty fields kept |
| `Text.NatToDecimal` | main.py:111 | `str(code)` is a non-empty digit string with no leading zero |
| `Text.DecimalRoundTrip` | main.py:111 | Reading the decimal digits of `str(code)` back gives `code` |
| `FuzzEngine.ResultLineRoundTrip` | main.py:111 | Every recorded line parses back into the resolved URL and the status code it was made from |
| `FuzzEngine.FirstUnresolved` | main.py:105-107 | The loop reaches exactly the candidates before the first `urljoin` that raises; all of those resolve |
| `FuzzEngine.RecordedPositionsExact` | main.py:110 | A request is recorded exactly when its outcome is a completed non-404 response; positions are increasing and within range |
| `FuzzEngine.ResultsFollowRecordedPositions` | main.py:106-116 | The k-th recorded line belongs to the k-th recorded request and carries its resolved URL and status code; there is one line per recorded request |
| `FuzzEngine.SkippedRequestContinues` | main.py:113-116 | A failed request or a 404 records nothing and the loop goes on with the next candidate |
| `FuzzEngine.ResultsAfterFirst` | main.py:106-116 | Requesting one more candidate first puts its line, if recorded, in front of the lines of the rest |
| `FuzzEngine.RequestAll` | main.py:105-116 | The loop completes exactly when every candidate resolves and otherwise stops at the first that does not; the lines recorded are `Results` of the candidates reached |
| `FuzzEngine.FuzzUrl` | main.py:82-130 | The run equals `FuzzOutcome`: invalid URL, aborted after a `urljoin` failure, or completed with the recorded lines and the file written |
| `FuzzEngine.FuzzOutcomeCases` | main.py:82-130 | An invalid URL stops the run before any request. The run completes exactly when every candidate resolves. Then there is one line per recorded response, and a file is written exactly when a non-empty output path is named. An aborted run writes nothing and records only requests made before the failure |
| `ResultSink.WriteLines` | main.py:121-123 | The written content is each recorded line followed by a newline, in order |
| `ResultSink.SerializeAppend` | main.py:122-123 | Writing one more line appends that line and one newline |
| `ResultSink.SerializeIsJoin` | main.py:122-123 | The content is the lines joined by newlines with a final newline |
| `ResultSink.SerializeLines` | main.py:122-123 | For lines without a line break, reading the file back by lines gives exactly the recorded lines, and it holds one newline per line |
| `ResultSink.Output` | main.py:119-123 | A file is written exactly when the output path is present and non-empty, to that path, with the serialised lines |
| `ResultSink.OutputHoldsResults` | main.py:119-123 | For lines without a line break: with an output path the file holds the recorded lines one per line and nothing else. Without a path no file is written |
| `FuzzEngine.ResultLineWithoutNewline` | main.py:111 | A recorded line contains a line break only if its URL does |
| `FuzzEngine.CompletedFileHoldsResults` | main.py:105-123 | If resolved URLs never contain a line break, a completed run's file holds one newline per recorded line and reads back as exactly the recorded lines, in order |
| `CliDriver.CsvArg` | main.py:146-147 | A given non-empty option becomes its comma-separated fields, count = commas + 1, rejoining gives the option text; otherwise `None` |
| `CliDriver.WordlistArg` | main.py:145 | A given non-empty path yields the words read from that file; otherwise `None` |
| `CliDriver.Decide` | main.py:137-158 | `main` stops exactly for an invalid URL or, under `--no-common`, for missing targets; otherwise it calls `fuzz_url` with the URL, the output path, the wordlist read from the file and the comma-split options. Its cases in terms of the raw options are stated by `DecisionCases`, `NoCommonNeverFallsBack`, `FallbackWithoutTargets`, `MissingWordlistIsAbsent` and `ThreadsAndRecursiveInert` |
| `CliDriver.TargetsFromArguments` | main.py:145-150 | A target exists exactly when the wordlist file has a line or a non-empty `--extensions` or `--directories` is given |
| `CliDriver.DecisionCases` | main.py:140-158 | `main` stops for an invalid URL exactly when it is invalid. It stops for missing targets exactly under `--no-common` with nothing given. Otherwise it calls `fuzz_url` with the URL and output path unchanged |
| `CliDriver.NoCommonNeverFallsBack` | main.py:149-158 | Under `--no-common` a run that reaches `fuzz_url` never uses the common lists and has at least one candidate |
| `CliDriver.FallbackWithoutTargets` | main.py:153-158 | Without `--no-common` a valid URL is always fuzzed, with the common lists exactly when no target was given |
| `CliDriver.MissingWordlistIsAbsent` | main.py:63-68 | A missing or unreadable wordlist file leads to the same decision and candidates as giving no wordlist |
| `CliDriver.ThreadsAndRecursiveInert` | main.py:27-29 | `--threads` and `--recursive` never change what `main` does |
| `CliDriver.FuzzAfterDecisionRuns` | main.py:82-84 | After `main` accepted the URL, the second validation in `fuzz_url` always passes |

## Left out

- HTTP requests are not performed. Each request's outcome is an input, one per candidate in request order. The 5-second timeout, TLS and DNS are part of that outcome.
- `urlparse` and `urljoin` are parameters, not implementations. URL resolution rules (RFC 3986) are not modelled.
- File input and output are not modelled. The wordlist read enters as its lines or its failure. The output file is modelled as the path and full content written.
- `FuzzEngine.FuzzUrl`: a failure while opening or writing the output file (lines 125-126) is not modelled; it is only logged and changes nothing else.
- Logging is not modelled. Every log call only reports; none affects control flow.
- `argparse` is not modelled; the parsed options enter as `CliDriver.Args`. `argparse` rejects a missing URL and a non-integer `--threads` when `main` parses the arguments at line 137, before any validation.
- `--threads` and `--recursive` are parsed and never used; the model carries them and proves they are inert.
- `ResultSink.SerializeLines`: holds only for lines without a line break. `FuzzEngine.CompletedFileHoldsResults` discharges this condition for the lines a run records, on the assumption below.
- `ResultSink.OutputHoldsResults`: holds only for lines without a line break, discharged the same way.
- `FuzzEngine.CompletedFileHoldsResults` assumes that resolved URLs contain no line break (`JoinsWithoutNewline`). `urljoin` is a parameter here, so that property of Python's `urljoin` is not proved.
- Status codes are natural numbers; `requests` reports them as non-negative integers.
- `Text.Strip`: the whitespace set is the fixed list of characters Python's `str.isspace` accepts. There is no Unicode database lookup beyond that list.
- Reading the file with universal newlines, and its encoding, are part of the file read that enters as input.
