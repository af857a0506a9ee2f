/**
 * The searches of the tool, each a loop over the lines of a file or over the entries of a
 * directory walk. The file system is given as an `Env`: what reading a path yields, and what
 * the directory walk yields for a directory, unbounded or limited to depth 1.
 */
module Search {
  import opened Text
  import opened Lines

  /** One item a directory walk yields (items the walk itself failed on are already dropped);
      `path` is `None` when the path is not valid text. */
  datatype Entry = Entry(isFile: bool, path: Option<string>)

  /** The file system as the searches see it. */
  datatype Env = Env(
    read: string -> Reading,          // the lines of the file at a path
    walk: string -> seq<Entry>,       // everything under a directory, the directory included
    walkShallow: string -> seq<Entry>) // the same, down to depth 1

  /** The directory wildcard of a basic search: a slash and a star. */
  const Wildcard := "/*"

  /** Printed for a walked path that is not valid text. */
  const NotText := "Path could not be converted to a string."

  /** What a search printed, and whether it ran to the end or stopped on an error. */
  datatype Report = Report(out: seq<string>, completed: bool)

  // ---------------------------------------------------------------------------
  // Single-file searches

  /** Plain search of one file (numbered or not): only the lines containing the pattern. */
  method SearchOneFile(pattern: string, file: string, numbered: bool, env: Env) returns (out: seq<string>, completed: bool)
    ensures out == Emitted(if numbered then Number else Select(Plain), pattern, env.read(file).lines)
    ensures completed == !env.read(file).failed
    ensures !numbered ==> forall x :: x in out <==> x in env.read(file).lines && Contains(x, pattern)
    ensures numbered ==>
      var lines := env.read(file).lines;
      var idx := Positions(Plain, pattern, lines);
      |out| == |idx| && forall j :: 0 <= j < |out| ==>
        idx[j] < |lines| && Contains(lines[idx[j]], pattern) && out[j] == Decimal(idx[j] + 1) + ": " + lines[idx[j]]
    ensures numbered ==>
      var lines := env.read(file).lines;
      forall k :: 0 <= k < |lines| ==> (k in Positions(Plain, pattern, lines) <==> Contains(lines[k], pattern))
  {
    var reading := env.read(file);
    out, completed := ScanLines(if numbered then Number else Select(Plain), pattern, reading);
    if numbered {
      NumberedLines(pattern, reading.lines);
    } else {
      SelectedMembers(Plain, pattern, reading.lines);
    }
  }

  /** Case-insensitive search of one file: the lines whose lower-cased form contains the
      lower-cased pattern, printed as read. */
  method CaseInsensitiveSearch(pattern: string, file: string, env: Env) returns (out: seq<string>, completed: bool)
    ensures out == Emitted(Select(IgnoreCase), pattern, env.read(file).lines)
    ensures completed == !env.read(file).failed
    ensures forall x :: x in out <==> x in env.read(file).lines && Contains(Lower(x), Lower(pattern))
  {
    var reading := env.read(file);
    out, completed := ScanLines(Select(IgnoreCase), pattern, reading);
    SelectedMembers(IgnoreCase, pattern, reading.lines);
  }

  /** Inverted search of one file: the lines that do not contain the pattern. */
  method InvertingSearch(pattern: string, file: string, env: Env) returns (out: seq<string>, completed: bool)
    ensures out == Emitted(Select(Invert), pattern, env.read(file).lines)
    ensures completed == !env.read(file).failed
    ensures forall x :: x in out <==> x in env.read(file).lines && !Contains(x, pattern)
  {
    var reading := env.read(file);
    out, completed := ScanLines(Select(Invert), pattern, reading);
    SelectedMembers(Invert, pattern, reading.lines);
  }

  // ---------------------------------------------------------------------------
  // Recursive search

  /** The per-line mode of a recursive search for the file at `path`. */
  function WalkMode(colour: bool, filename: bool, path: string): Mode
  {
    Decorate(colour, if filename then Some(path) else None)
  }

  /** What one walked entry adds to a recursive search. */
  function EntryReport(pattern: string, colour: bool, filename: bool, e: Entry, read: string -> Reading): Report
  {
    if !e.isFile then Report([], true)
    else match e.path
      case None => Report([NotText], true)
      case Some(path) => Report(Emitted(WalkMode(colour, filename, path), pattern, read(path).lines), !read(path).failed)
  }

  /** Reports of steps run one after another: the first step that does not complete ends the run. */
  function Sequence(reports: seq<Report>): Report
    decreases |reports|
  {
    if reports == [] then Report([], true)
    else if !reports[0].completed then reports[0]
    else
      var rest := Sequence(reports[1..]);
      Report(reports[0].out + rest.out, rest.completed)
  }

  /** What each walked entry would add to a recursive search, in walk order. */
  function EntryReports(pattern: string, colour: bool, filename: bool, entries: seq<Entry>, read: string -> Reading): seq<Report>
  {
    seq(|entries|, k requires 0 <= k < |entries| => EntryReport(pattern, colour, filename, entries[k], read))
  }

  /** A recursive search over `entries` in walk order: the first file that fails ends the search. */
  function Walked(pattern: string, colour: bool, filename: bool, entries: seq<Entry>, read: string -> Reading): Report
  {
    Sequence(EntryReports(pattern, colour, filename, entries, read))
  }

  /** The body of a recursive search for one walked entry: a file is searched line by line. */
  method SearchEntry(pattern: string, colour: bool, filename: bool, e: Entry, env: Env)
    returns (out: seq<string>, completed: bool)
    ensures Report(out, completed) == EntryReport(pattern, colour, filename, e, env.read)
  {
    out, completed := [], true;
    if e.isFile {
      match e.path
      case None =>
        out := [NotText];
      case Some(path) =>
        out, completed := ScanLines(WalkMode(colour, filename, path), pattern, env.read(path));
    }
  }

  /** Recursive search of a directory, with or without colour and file names. */
  method RecursiveSearch(pattern: string, directory: string, colour: bool, filename: bool, env: Env)
    returns (out: seq<string>, completed: bool)
    ensures Report(out, completed) == Walked(pattern, colour, filename, env.walk(directory), env.read)
  {
    var entries := env.walk(directory);
    ghost var reports := EntryReports(pattern, colour, filename, entries, env.read);
    out := [];
    var i := 0;
    while i < |entries|
      invariant 0 <= i <= |entries|
      invariant Sequence(reports) == Report(out + Sequence(reports[i..]).out, Sequence(reports[i..]).completed)
    {
      var lines, fileCompleted := SearchEntry(pattern, colour, filename, entries[i], env);
      assert reports[i] == Report(lines, fileCompleted);
      SequenceStep(reports, i, out);
      if !fileCompleted {
        return out + lines, false;
      }
      out := out + lines;
      i := i + 1;
    }
    return out, true;
  }

  /** One step of a run: the step at `i` either ends the run or adds its output and goes on. */
  lemma SequenceStep(reports: seq<Report>, i: nat, done: seq<string>)
    requires i < |reports|
    requires Sequence(reports) == Report(done + Sequence(reports[i..]).out, Sequence(reports[i..]).completed)
    ensures !reports[i].completed ==> Sequence(reports) == Report(done + reports[i].out, false)
    ensures reports[i].completed ==>
      Sequence(reports) == Report((done + reports[i].out) + Sequence(reports[i + 1..]).out, Sequence(reports[i + 1..]).completed)
  {
    assert reports[i..] == [reports[i]] + reports[i + 1..];
    SequenceCons(reports[i], reports[i + 1..]);
  }

  lemma SequenceCons(first: Report, rest: seq<Report>)
    ensures Sequence([first] + rest)
         == if !first.completed then first
            else Report(first.out + Sequence(rest).out, Sequence(rest).completed)
  {
    assert ([first] + rest)[0] == first && ([first] + rest)[1..] == rest;
  }

  /** Once a step fails, nothing from the steps after it shows in the run. */
  lemma {:induction false} SequenceStopsAtFailure(before: seq<Report>, after: seq<Report>)
    requires !Sequence(before).completed
    ensures Sequence(before + after) == Sequence(before)
    decreases |before|
  {
    assert (before + after)[0] == before[0];
    assert (before + after)[1..] == before[1..] + after;
    if before[0].completed {
      SequenceStopsAtFailure(before[1..], after);
    }
  }

  /** When every step before completes, the run goes on to the steps after. */
  lemma {:induction false} SequenceContinues(before: seq<Report>, after: seq<Report>)
    requires Sequence(before).completed
    ensures Sequence(before + after) == Report(Sequence(before).out + Sequence(after).out, Sequence(after).completed)
    decreases |before|
  {
    if before == [] {
      assert before + after == after;
    } else {
      assert (before + after)[0] == before[0];
      assert (before + after)[1..] == before[1..] + after;
      SequenceContinues(before[1..], after);
    }
  }

  lemma EntryReportsSplit(pattern: string, colour: bool, filename: bool, before: seq<Entry>, after: seq<Entry>, read: string -> Reading)
    ensures EntryReports(pattern, colour, filename, before + after, read)
         == EntryReports(pattern, colour, filename, before, read) + EntryReports(pattern, colour, filename, after, read)
  {
  }

  /**
   * A recursive search stops at the first file that cannot be opened or read: after it,
   * nothing from later entries is searched or printed; while every file before succeeds,
   * the search goes on to the entries after.
   */
  lemma WalkStopsAtFailure(pattern: string, colour: bool, filename: bool,
                           before: seq<Entry>, after: seq<Entry>, read: string -> Reading)
    ensures var first := Walked(pattern, colour, filename, before, read);
      var both := Walked(pattern, colour, filename, before + after, read);
      var second := Walked(pattern, colour, filename, after, read);
      && (!first.completed ==> both == first)
      && (first.completed ==> both == Report(first.out + second.out, second.completed))
  {
    EntryReportsSplit(pattern, colour, filename, before, after, read);
    var rs1 := EntryReports(pattern, colour, filename, before, read);
    var rs2 := EntryReports(pattern, colour, filename, after, read);
    if Sequence(rs1).completed {
      SequenceContinues(rs1, rs2);
    } else {
      SequenceStopsAtFailure(rs1, rs2);
    }
  }

  // ---------------------------------------------------------------------------
  // Basic search

  /** For a file argument holding the wildcard `Wildcard`: the part before its first
      occurrence, naming a directory. */
  function DirectoryOf(file: string): (r: Option<string>)
    ensures r.None? <==> !Contains(file, Wildcard)
    ensures r.Some? ==> r.value + Wildcard <= file && !Contains(r.value, Wildcard)
  {
    match Find(file, Wildcard)
    case None => None
    case Some(pos) =>
      var dir := file[..pos];
      assert !Contains(dir, Wildcard) by {
        forall j: nat | OccursAt(dir, Wildcard, j)
          ensures false
        {
          assert dir[j..j + |Wildcard|] == file[j..j + |Wildcard|];
          assert j < pos && OccursAt(file, Wildcard, j);
        }
      }
      assert file[pos..pos + |Wildcard|] == Wildcard;
      Some(dir)
  }

  /** What a basic search prints for one file it reaches: numbering off, errors dropped. */
  function FileOutput(pattern: string, path: string, read: string -> Reading): seq<string>
  {
    Emitted(Select(Plain), pattern, read(path).lines)
  }

  /** What a basic search prints for one entry of a depth-1 walk. */
  function EntryOutput(pattern: string, e: Entry, read: string -> Reading): seq<string>
  {
    if !e.isFile then []
    else match e.path
      case None => [NotText]
      case Some(path) => FileOutput(pattern, path, read)
  }

  /** Outputs printed one after another. */
  function Flatten(parts: seq<seq<string>>): seq<string>
    decreases |parts|
  {
    if parts == [] then [] else Flatten(parts[..|parts| - 1]) + parts[|parts| - 1]
  }

  lemma FlattenAppend(parts: seq<seq<string>>, last: seq<string>)
    ensures Flatten(parts + [last]) == Flatten(parts) + last
  {
    assert (parts + [last])[..|parts|] == parts;
  }

  lemma {:induction false} FlattenSplits(before: seq<seq<string>>, after: seq<seq<string>>)
    ensures Flatten(before + after) == Flatten(before) + Flatten(after)
    decreases |after|
  {
    if after == [] {
      assert before + after == before;
    } else {
      var init, last := after[..|after| - 1], after[|after| - 1];
      assert after == init + [last];
      assert before + after == (before + init) + [last];
      FlattenSplits(before, init);
      FlattenAppend(before + init, last);
      FlattenAppend(init, last);
    }
  }

  /** What a basic search prints for each entry of a depth-1 walk. */
  function EntryOutputs(pattern: string, entries: seq<Entry>, read: string -> Reading): seq<seq<string>>
  {
    seq(|entries|, k requires 0 <= k < |entries| => EntryOutput(pattern, entries[k], read))
  }

  /** What a basic search prints for the entries of a depth-1 walk, in walk order. */
  function ShallowOutput(pattern: string, entries: seq<Entry>, read: string -> Reading): seq<string>
  {
    Flatten(EntryOutputs(pattern, entries, read))
  }

  /** What a basic search prints for one file argument. */
  function ArgOutput(pattern: string, file: string, env: Env): seq<string>
  {
    match DirectoryOf(file)
    case Some(dir) => ShallowOutput(pattern, env.walkShallow(dir), env.read)
    case None => FileOutput(pattern, file, env.read)
  }

  /** What a basic search prints for each file argument. */
  function ArgOutputs(pattern: string, files: seq<string>, env: Env): seq<seq<string>>
  {
    seq(|files|, k requires 0 <= k < |files| => ArgOutput(pattern, files[k], env))
  }

  /** What a basic search prints for its file arguments, in order. */
  function BasicOutput(pattern: string, files: seq<string>, env: Env): seq<string>
  {
    Flatten(ArgOutputs(pattern, files, env))
  }

  /** The wildcard branch of a basic search: the files directly in `dir`, in walk order. */
  method SearchDirectoryFiles(pattern: string, dir: string, env: Env) returns (out: seq<string>)
    ensures out == ShallowOutput(pattern, env.walkShallow(dir), env.read)
  {
    var entries := env.walkShallow(dir);
    ghost var parts := EntryOutputs(pattern, entries, env.read);
    out := [];
    var j := 0;
    while j < |entries|
      invariant 0 <= j <= |entries|
      invariant out == Flatten(parts[..j])
    {
      var e := entries[j];
      assert parts[..j + 1] == parts[..j] + [parts[j]];
      FlattenAppend(parts[..j], parts[j]);
      assert parts[j] == EntryOutput(pattern, e, env.read);
      if e.isFile {
        match e.path
        case None =>
          out := out + [NotText];
        case Some(path) =>
          var lines, fileCompleted := SearchOneFile(pattern, path, false, env);
          out := out + lines;
      }
      j := j + 1;
    }
    assert parts[..|entries|] == parts;
  }

  /** Basic search: each file argument in turn, an argument holding `Wildcard` standing for
      the files directly in the directory before it; an error in one file ends that file only. */
  method BasicSearch(pattern: string, files: seq<string>, env: Env) returns (out: seq<string>)
    ensures out == BasicOutput(pattern, files, env)
  {
    ghost var parts := ArgOutputs(pattern, files, env);
    out := [];
    var i := 0;
    while i < |files|
      invariant 0 <= i <= |files|
      invariant out == Flatten(parts[..i])
    {
      var file := files[i];
      assert parts[..i + 1] == parts[..i] + [parts[i]];
      FlattenAppend(parts[..i], parts[i]);
      assert parts[i] == ArgOutput(pattern, file, env);
      var found := DirectoryOf(file);
      if found.Some? {
        var lines := SearchDirectoryFiles(pattern, found.value, env);
        out := out + lines;
      } else {
        var lines, fileCompleted := SearchOneFile(pattern, file, false, env);
        out := out + lines;
      }
      i := i + 1;
    }
    assert parts[..|files|] == parts;
  }

  /** Each file argument is searched on its own: the output for a list of arguments is the
      outputs for its parts one after the other, whatever fails in either part. */
  lemma BasicOutputSplits(pattern: string, before: seq<string>, after: seq<string>, env: Env)
    ensures BasicOutput(pattern, before + after, env) == BasicOutput(pattern, before, env) + BasicOutput(pattern, after, env)
  {
    assert ArgOutputs(pattern, before + after, env) == ArgOutputs(pattern, before, env) + ArgOutputs(pattern, after, env);
    FlattenSplits(ArgOutputs(pattern, before, env), ArgOutputs(pattern, after, env));
  }
}
