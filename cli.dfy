/**
 * The command line of the tool: the choice of search made from the last one or two
 * arguments, and what the whole run prints. Arguments are as the process receives them,
 * the program name first.
 */
module Cli {
  import opened Lines
  import opened Search

  /** What the arguments ask for. */
  datatype Command =
    | Help
    | CaseInsensitive(pattern: string, file: string)
    | Numbered(pattern: string, file: string)
    | Inverting(pattern: string, file: string)
    | Recursive(pattern: string, directory: string, colour: bool, filename: bool)
    | Basic(pattern: string, files: seq<string>)
    | Crash  // an argument looked up past the end of the list: the run panics before printing

  /** The last arguments that choose a search other than the basic one. */
  const SearchFlags: set<string> := {"-i", "-n", "-v", "-r", "-f"}

  const HelpText :=
    "Usage: grep [OPTIONS] <pattern> <files...>\n"
    + "Options:\n"
    + "-i                Case-insensitive search\n"
    + "-n                Print line numbers\n"
    + "-v                Invert match (exclude lines that match the pattern)\n"
    + "-r                Recursive directory search\n"
    + "-f                Print filenames\n"
    + "-c                Enable colored output\n"
    + "-h, --help        Show help information"

  function Last(args: seq<string>): string
    requires |args| >= 1
  {
    args[|args| - 1]
  }

  /**
   * The dispatch of `main`: only the last argument decides, except that after a last "-f"
   * the argument before it is looked at for "-c". Every search reads the pattern from the
   * second argument and its file or directory from the third; the basic search takes all
   * arguments from the third on as files.
   */
  function Dispatch(args: seq<string>): (cmd: Command)
    ensures cmd == Help <==> |args| >= 1 && Last(args) == "-h"
    ensures cmd == Crash <==>
      |args| == 0 || (Last(args) != "-h" && |args| < if Last(args) in SearchFlags then 3 else 2)
    ensures cmd.CaseInsensitive? <==> |args| >= 3 && Last(args) == "-i"
    ensures cmd.Numbered? <==> |args| >= 3 && Last(args) == "-n"
    ensures cmd.Inverting? <==> |args| >= 3 && Last(args) == "-v"
    ensures cmd.Recursive? <==> |args| >= 3 && Last(args) in {"-r", "-f"}
    ensures cmd.Recursive? ==> (cmd.filename <==> Last(args) == "-f")
    ensures cmd.Recursive? ==> (cmd.colour <==> Last(args) == "-f" && args[|args| - 2] == "-c")
    ensures cmd.Recursive? && cmd.colour ==> cmd.filename
    ensures cmd.Basic? <==> |args| >= 2 && Last(args) != "-h" && Last(args) !in SearchFlags
    ensures cmd.Basic? ==> cmd.pattern == args[1] && cmd.files == args[2..]
    ensures !cmd.Help? && !cmd.Crash? && !cmd.Basic? ==> |args| >= 3 && cmd.pattern == args[1]
    ensures cmd.CaseInsensitive? || cmd.Numbered? || cmd.Inverting? ==> cmd.file == args[2]
    ensures cmd.Recursive? ==> cmd.directory == args[2]
  {
    if |args| == 0 then Crash
    else
      var last := Last(args);
      if last == "-h" then Help
      else if last in SearchFlags && |args| < 3 then Crash
      else if last == "-i" then CaseInsensitive(args[1], args[2])
      else if last == "-n" then Numbered(args[1], args[2])
      else if last == "-v" then Inverting(args[1], args[2])
      else if last == "-r" then Recursive(args[1], args[2], false, false)
      else if last == "-f" then
        if args[|args| - 2] == "-c" then Recursive(args[1], args[2], true, true)
        else Recursive(args[1], args[2], false, true)
      else if |args| < 2 then Crash
      else Basic(args[1], args[2..])
  }

  /**
   * The long help flag is not a flag of the dispatch: as the last argument it is one more
   * file of a basic search, and alone after the program name it is the pattern.
   */
  lemma LongHelpIsBasicSearch(args: seq<string>)
    ensures |args| >= 2 ==> Dispatch(args + ["--help"]) == Basic(args[1], args[2..] + ["--help"])
    ensures |args| == 1 ==> Dispatch(args + ["--help"]) == Basic("--help", [])
  {
    var all := args + ["--help"];
    assert Last(all) == "--help";
    if |args| >= 2 {
      assert all[1] == args[1] && all[2..] == args[2..] + ["--help"];
    } else if |args| == 1 {
      assert all[1] == "--help" && all[2..] == [];
    }
  }

  /** What the command prints; errors of the search are dropped, as `main` ignores them. */
  function Output(cmd: Command, env: Env): seq<string>
  {
    match cmd
    case Help => [HelpText]
    case CaseInsensitive(pattern, file) => Emitted(Select(IgnoreCase), pattern, env.read(file).lines)
    case Numbered(pattern, file) => Emitted(Number, pattern, env.read(file).lines)
    case Inverting(pattern, file) => Emitted(Select(Invert), pattern, env.read(file).lines)
    case Recursive(pattern, directory, colour, filename) =>
      Walked(pattern, colour, filename, env.walk(directory), env.read).out
    case Basic(pattern, files) => BasicOutput(pattern, files, env)
    case Crash => []
  }

  /** One run of the tool: dispatch on the arguments, then run the chosen search. */
  method Run(args: seq<string>, env: Env) returns (out: seq<string>, crashed: bool)
    ensures crashed <==> Dispatch(args) == Crash
    ensures out == Output(Dispatch(args), env)
  {
    var cmd := Dispatch(args);
    crashed := false;
    match cmd {
      case Help =>
        out := [HelpText];
      case CaseInsensitive(pattern, file) =>
        var completed;
        out, completed := CaseInsensitiveSearch(pattern, file, env);
      case Numbered(pattern, file) =>
        var completed;
        out, completed := SearchOneFile(pattern, file, true, env);
      case Inverting(pattern, file) =>
        var completed;
        out, completed := InvertingSearch(pattern, file, env);
      case Recursive(pattern, directory, colour, filename) =>
        var completed;
        out, completed := RecursiveSearch(pattern, directory, colour, filename, env);
      case Basic(pattern, files) =>
        out := BasicSearch(pattern, files, env);
      case Crash =>
        out, crashed := [], true;
    }
  }
}
