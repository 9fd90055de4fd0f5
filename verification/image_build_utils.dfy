/**
 * Counting the instructions of a Dockerfile (`ImageBuildUtils`): the
 * lines that are neither comments nor blank. Reading the file is outside
 * the model: the file is the sequence of lines its reader returns, or
 * `None` when opening or reading it fails with an `IOException`.
 */
module ImageBuildUtils {
  import opened JavaLang
  import Seqs

  /**
   * A line that counts: it does not start with `#` and is not blank once
   * trimmed. The `#` test comes before trimming, so an indented comment
   * counts.
   */
  predicate IsInstruction(line: string)
  {
    !StartsWith(line, "#") && Trim(line) != ""
  }

  /** The outcome of `numberOfLines`. */
  datatype Counted = Counted(count: nat) | ReadFailed

  /** `numberOfLines`: the number of instruction lines of the file. */
  method NumberOfLines(file: Option<seq<string>>) returns (r: Counted)
    ensures file.None? <==> r.ReadFailed?
    ensures file.Some? ==> r.count == Seqs.Count(file.value, IsInstruction)
    ensures file.Some? ==> r.count <= |file.value|
  {
    if file.None? {
      return ReadFailed;
    }
    var lines := file.value;
    var count := 0;
    var i := 0;
    while i < |lines|
      invariant 0 <= i <= |lines|
      invariant count == Seqs.Count(lines[..i], IsInstruction) && count <= i
    {
      CountStep(lines, i);
      if StartsWith(lines[i], "#") || Trim(lines[i]) == "" {
        i := i + 1;
        continue;
      }
      count := count + 1;
      i := i + 1;
    }
    assert lines[..i] == lines;
    return Counted(count);
  }

  lemma CountStep(lines: seq<string>, i: int)
    requires 0 <= i < |lines|
    ensures Seqs.Count(lines[..i + 1], IsInstruction) == Seqs.Count(lines[..i], IsInstruction) + (if IsInstruction(lines[i]) then 1 else 0)
  {
    assert lines[..i + 1][..i] == lines[..i];
  }

  /** Appending a comment or blank line leaves the count as it is; appending any other line adds one. */
  lemma CountAppendLine(lines: seq<string>, line: string)
    ensures Seqs.Count(lines + [line], IsInstruction) == Seqs.Count(lines, IsInstruction) + (if IsInstruction(line) then 1 else 0)
  {
    assert (lines + [line])[..|lines|] == lines;
  }

  /** A file that is nothing but comments and blank lines has no instructions. */
  lemma {:induction false} NoInstructions(lines: seq<string>)
    requires forall k :: 0 <= k < |lines| ==> StartsWith(lines[k], "#") || Trim(lines[k]) == ""
    ensures Seqs.Count(lines, IsInstruction) == 0
    decreases |lines|
  {
    if |lines| > 0 {
      NoInstructions(lines[..|lines| - 1]);
    }
  }

  /** An indented comment is counted, while the same comment at the start of the line is not. */
  lemma IndentedCommentCounts()
    ensures IsInstruction("  # x") && !IsInstruction("# x")
  {
    var indented := "  # x";
    var comment := "# x";
    assert indented[..1] == [' '];
    assert indented[1..][1..] == comment;
    assert TrimStart(comment) == comment;
    assert TrimStart(indented) == comment;
    assert TrimEnd(comment) == comment;
    assert comment[..1] == "#";
  }
}
