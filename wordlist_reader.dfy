/**
 * `read_wordlist`: the lines of a wordlist file, each stripped of surrounding
 * whitespace. Opening and reading the file is I/O and enters as the
 * `FileRead` the attempt produced.
 */
module WordlistReader {
  import Text

  /** What reading the wordlist file produced: its lines, or one of the two failures. */
  datatype FileRead = Lines(lines: seq<string>) | NotFound | Unreadable

  /**
   * One word per line, in order, each the line with surrounding whitespace
   * removed; a missing or unreadable file degrades to the empty list.
   */
  function ReadWordlist(file: FileRead): (words: seq<string>)
    ensures file.Lines? ==> |words| == |file.lines|
    ensures file.Lines? ==> forall k :: 0 <= k < |words| ==> words[k] == Text.Strip(file.lines[k])
    ensures !file.Lines? ==> words == []
  {
    match file
    case Lines(lines) => seq(|lines|, k requires 0 <= k < |lines| => Text.Strip(lines[k]))
    case NotFound => []
    case Unreadable => []
  }
}
