/** The split of a command line into a program and its arguments, as
    `exec_command` in src/main.rs does it before spawning. */
module Launcher {

  /** Takes the first word with `next()` and collects what the iterator
      still yields as the arguments. The command line is never empty: the
      argument parser demands at least one word, and `exec_command` unwraps
      the first item. */
  method SplitCommandLine(commandLine: seq<string>) returns (program: string, args: seq<string>)
    requires |commandLine| > 0
    ensures program == commandLine[0]
    ensures args == commandLine[1..]
    ensures [program] + args == commandLine
  {
    var pos := 0;
    program := commandLine[pos];
    pos := pos + 1;
    args := [];
    while pos < |commandLine|
      invariant 1 <= pos <= |commandLine|
      invariant args == commandLine[1..pos]
    {
      args := args + [commandLine[pos]];
      pos := pos + 1;
    }
  }
}
