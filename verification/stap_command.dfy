/**
 * The SystemTap command line (`SystemTapCommandGenerator`): the words of
 * the `stap` invocation built from the script path, the guru-mode
 * commands, the binary to run with `-c` and the script arguments, and
 * the command string that joins them with single spaces. Java's string
 * concatenation writes a null reference as `null`; `STAP_PATH` is a
 * parameter.
 */
module StapCommand {
  import opened JavaLang

  /** The generator's fields as `generateCommand` sets them; null strings are `None`. */
  datatype Generator = Generator(
    needsToSendCommand: bool,
    needsArguments: bool,
    arguments: Option<string>,
    scriptPath: Option<string>,
    commands: Option<string>,
    isGuru: bool,
    binaryPath: Option<string>,
    binaryArguments: Option<string>,
    executeCommand: Option<string>)

  /**
   * `generateCommand`'s outcome: the command, or the
   * `NullPointerException` a null `commands` or binary-argument string
   * raises, with the generator as the assignments before it left it.
   */
  datatype Generated = Generated(generator: Generator, command: string) | NullPointer(partial: Generator)

  /** How string concatenation renders a possibly null reference. */
  function Text(s: Option<string>): string
  {
    if s.Some? then s.value else "null"
  }

  /** The `-c` option that makes stap run the binary, with its arguments when there are any. */
  function BinaryOption(binaryPath: Option<string>, binaryArguments: string): (s: string)
    ensures |binaryArguments| < 1 ==> s == "-c '" + Text(binaryPath) + "'"
    ensures |binaryArguments| >= 1 ==> s == "-c '" + Text(binaryPath) + " " + binaryArguments + "'"
  {
    if |binaryArguments| < 1 then "-c '" + Text(binaryPath) + "'"
    else "-c '" + Text(binaryPath) + " " + binaryArguments + "'"
  }

  /** The option list: the commands when non-empty, then the `-c` option when a binary is to be run. */
  function CommandList(g: Generator): (r: seq<string>)
    requires g.commands.Some? && (g.needsToSendCommand ==> g.binaryArguments.Some?)
    ensures |r| == (if |g.commands.value| > 0 then 1 else 0) + (if g.needsToSendCommand then 1 else 0)
  {
    (if |g.commands.value| > 0 then [g.commands.value] else [])
    + (if g.needsToSendCommand then [BinaryOption(g.binaryPath, g.binaryArguments.value)] else [])
  }

  /**
   * `buildScript`: `stap`, the options, the script path and, when the
   * script takes arguments, the argument string last.
   */
  function BuildScript(g: Generator, stapPath: string): (script: seq<Option<string>>)
    requires g.commands.Some? && (g.needsToSendCommand ==> g.binaryArguments.Some?)
    ensures var opts := CommandList(g);
            |script| == |opts| + (if g.needsArguments then 3 else 2)
            && script[0] == Some(stapPath)
            && (forall k :: 0 <= k < |opts| ==> script[k + 1] == Some(opts[k]))
            && (g.needsArguments ==> script[|script| - 2] == g.scriptPath && script[|script| - 1] == g.arguments)
            && (!g.needsArguments ==> script[|script| - 1] == g.scriptPath)
  {
    var opts := CommandList(g);
    [Some(stapPath)] + seq(|opts|, k requires 0 <= k < |opts| => Some(opts[k]))
    + (if g.needsArguments then [g.scriptPath, g.arguments] else [g.scriptPath])
  }

  /** The option list holds the commands exactly when they are non-empty. */
  lemma CommandsIncludedIffNonEmpty(g: Generator)
    requires g.commands.Some? && (g.needsToSendCommand ==> g.binaryArguments.Some?)
    ensures |g.commands.value| > 0 <==> (|CommandList(g)| > 0 && CommandList(g)[0] == g.commands.value
                                          && (g.needsToSendCommand ==> |CommandList(g)| == 2))
  {
    if |g.commands.value| == 0 && |CommandList(g)| > 0 && g.needsToSendCommand {
      assert CommandList(g)[0] == BinaryOption(g.binaryPath, g.binaryArguments.value);
      assert |CommandList(g)| == 1;
    }
  }

  function Render(script: seq<Option<string>>): (r: seq<string>)
    ensures |r| == |script| && forall k :: 0 <= k < |r| ==> r[k] == Text(script[k])
  {
    seq(|script|, k requires 0 <= k < |script| => Text(script[k]))
  }

  /** The concatenation loop of `generateCommand`: a space after every word but the last. */
  method JoinWords(words: seq<string>) returns (cmd: string)
    requires |words| >= 1
    ensures cmd == Join(words, " ")
  {
    cmd := "";
    var i := 0;
    while i < |words| - 1
      invariant 0 <= i <= |words| - 1
      invariant cmd + Join(words[i..], " ") == Join(words, " ")
    {
      assert words[i..][1..] == words[i + 1..];
      assert Join(words[i..], " ") == words[i] + " " + Join(words[i + 1..], " ");
      cmd := cmd + words[i] + " ";
      i := i + 1;
    }
    assert words[i..] == [words[i]];
    cmd := cmd + words[|words| - 1];
  }

  /**
   * `generateCommand`: sets the fields (guru mode off), builds the script
   * and concatenates its words with a space after every word but the
   * last; the command is also kept as the one to execute. A null
   * dereference in `buildScript` leaves the fields set and the previous
   * command to execute in place.
   */
  method GenerateCommand(g: Generator, stapPath: string, scrPath: Option<string>, binPath: Option<string>,
                         cmds: Option<string>, needBinary: bool, needsArgs: bool, arg: Option<string>,
                         binArguments: Option<string>) returns (r: Generated)
    ensures cmds.None? || (needBinary && binArguments.None?) <==> r.NullPointer?
    ensures r.Generated? ==> !r.generator.isGuru && r.generator.executeCommand == Some(r.command)
    ensures r.Generated? ==> (r.generator.scriptPath == scrPath && r.generator.arguments == arg
              && r.generator.commands == cmds && r.generator.binaryPath == binPath
              && r.generator.binaryArguments == binArguments && r.generator.needsToSendCommand == needBinary
              && r.generator.needsArguments == needsArgs)
    ensures r.Generated? ==> r.command == Join(Render(BuildScript(r.generator, stapPath)), " ")
    ensures r.NullPointer? ==> (!r.partial.isGuru && r.partial.executeCommand == g.executeCommand
              && r.partial.scriptPath == scrPath && r.partial.arguments == arg
              && r.partial.commands == cmds && r.partial.binaryPath == binPath
              && r.partial.binaryArguments == binArguments && r.partial.needsToSendCommand == needBinary
              && r.partial.needsArguments == needsArgs)
  {
    var h := g.(needsToSendCommand := needBinary, needsArguments := needsArgs, binaryPath := binPath,
                scriptPath := scrPath, isGuru := false, arguments := arg, commands := cmds,
                binaryArguments := binArguments);
    if cmds.None? || (needBinary && binArguments.None?) {
      return NullPointer(h);
    }
    var cmd := JoinWords(Render(BuildScript(h, stapPath)));
    assert BuildScript(h.(executeCommand := Some(cmd)), stapPath) == BuildScript(h, stapPath);
    return Generated(h.(executeCommand := Some(cmd)), cmd);
  }

  /**
   * The command keeps its words apart: when no word holds a space and
   * the last is not empty, splitting the command at spaces gives the
   * script's words back.
   */
  lemma CommandSplitsIntoScript(g: Generator, stapPath: string)
    requires g.commands.Some? && (g.needsToSendCommand ==> g.binaryArguments.Some?)
    requires var words := Render(BuildScript(g, stapPath));
             (forall k :: 0 <= k < |words| ==> ' ' !in words[k]) && words[|words| - 1] != ""
    ensures Split(Join(Render(BuildScript(g, stapPath)), " "), ' ') == Render(BuildScript(g, stapPath))
  {
    SplitOfJoin(Render(BuildScript(g, stapPath)), ' ');
  }
}
