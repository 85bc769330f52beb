/**
 * The result file written at the end of `fuzz_url`: every recorded line
 * followed by a newline, written only when an output path was given.
 * Opening the file and the write itself are I/O outside this model; what is
 * modelled is which file is written and with what content.
 */
module ResultSink {
  import opened Wrappers
  import Text

  /** The file content for the recorded lines: each line followed by `"\n"`. */
  function Serialize(lines: seq<string>): string
  {
    if lines == [] then "" else lines[0] + "\n" + Serialize(lines[1..])
  }

  /** Writing one more line appends that line and its newline. */
  lemma {:induction false} SerializeAppend(lines: seq<string>, line: string)
    ensures Serialize(lines + [line]) == Serialize(lines) + line + "\n"
  {
    if lines != [] {
      SerializeAppend(lines[1..], line);
      assert (lines + [line])[1..] == lines[1..] + [line];
    }
  }

  /** The write loop: one `f.write(result + "\n")` per recorded line, in order. */
  method WriteLines(results: seq<string>) returns (content: string)
    ensures content == Serialize(results)
  {
    content := "";
    for i := 0 to |results|
      invariant content == Serialize(results[..i])
    {
      SerializeAppend(results[..i], results[i]);
      assert results[..i + 1] == results[..i] + [results[i]];
      content := content + results[i] + "\n";
    }
    assert results[..|results|] == results;
  }

  /** The content is the lines joined by newlines, with a final newline after the last one. */
  lemma {:induction false} SerializeIsJoin(lines: seq<string>)
    ensures Serialize(lines) == Text.JoinOn(lines + [""], '\n')
  {
    if lines != [] {
      SerializeIsJoin(lines[1..]);
      var fields := lines + [""];
      assert |fields| >= 2 && fields[0] == lines[0] && fields[1..] == lines[1..] + [""];
    }
  }

  /**
   * Reading the file back gives the recorded lines in order, then nothing after
   * the final newline; so the file holds exactly one newline per recorded line.
   */
  lemma SerializeLines(lines: seq<string>)
    requires forall k :: 0 <= k < |lines| ==> '\n' !in lines[k]
    ensures Text.SplitOn(Serialize(lines), '\n') == lines + [""]
    ensures Text.Count(Serialize(lines), '\n') == |lines|
  {
    SerializeIsJoin(lines);
    Text.SplitJoin(lines + [""], '\n');
    Text.SplitLength(Serialize(lines), '\n');
  }

  /** A file the run writes: its path and its full new content (the file is overwritten). */
  datatype FileWrite = FileWrite(path: string, content: string)

  /**
   * Lines 119-123: a file is written exactly when the output path is present
   * and non-empty, and it then receives the serialised results.
   */
  function Output(outputFile: Option<string>, results: seq<string>): (w: Option<FileWrite>)
    ensures w.Some? <==> outputFile.Some? && outputFile.value != ""
    ensures w.Some? ==> w.value.path == outputFile.value && w.value.content == Serialize(results)
  {
    if outputFile.Some? && outputFile.value != "" then
      Some(FileWrite(outputFile.value, Serialize(results)))
    else
      None
  }

  /**
   * With an output path, the written file holds one line per recorded result,
   * in order, and nothing else; with none, no file is written.
   */
  lemma OutputHoldsResults(outputFile: Option<string>, results: seq<string>)
    requires forall k :: 0 <= k < |results| ==> '\n' !in results[k]
    ensures outputFile.Some? && outputFile.value != "" ==>
              Output(outputFile, results).Some?
              && Text.SplitOn(Output(outputFile, results).value.content, '\n') == results + [""]
              && Text.Count(Output(outputFile, results).value.content, '\n') == |results|
    ensures !(outputFile.Some? && outputFile.value != "") ==> Output(outputFile, results).None?
  {
    SerializeLines(results);
  }
}
