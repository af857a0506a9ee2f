/**
 * The per-line filter and formatter shared by every search of the tool: each search reads
 * the lines of one file in order and, per line, decides whether to print it and how.
 * The file itself is abstracted to a `Reading`: the lines read before reading stopped,
 * and whether it stopped on an error.
 */
module Lines {
  import opened Text

  /** The lines of one file read in order, and whether reading ended on an error
      (a file that cannot be opened reads as no lines and an error). */
  datatype Reading = Reading(lines: seq<string>, failed: bool)

  /** Which lines a search keeps. */
  datatype Rule =
    | Plain       // lines containing the pattern
    | IgnoreCase  // lines whose lower-cased form contains the lower-cased pattern
    | Invert      // lines not containing the pattern

  /** How a kept line is printed. */
  datatype Mode =
    | Select(rule: Rule)                              // the line as read
    | Number                                          // the line after its 1-based number
    | Decorate(colour: bool, file: Option<string>)   // recursive search: highlight, file name

  function RuleOf(m: Mode): Rule
  {
    if m.Select? then m.rule else Plain
  }

  predicate Selects(rule: Rule, pattern: string, line: string)
  {
    match rule
    case Plain => Contains(line, pattern)
    case IgnoreCase => Contains(Lower(line), Lower(pattern))
    case Invert => !Contains(line, pattern)
  }

  /** The colored crate's `red()`: the ANSI red-foreground code, the text, the reset code. */
  function Red(s: string): string
  {
    "\U{1B}[31m" + s + "\U{1B}[0m"
  }

  /** A line with every occurrence of the pattern shown in red. */
  function Highlight(line: string, pattern: string): (r: string)
    ensures !Contains(line, pattern) ==> r == line
  {
    Replace(line, pattern, Red(pattern))
  }

  /** A path as shown before a line: every backslash turned into a slash. */
  function Display(path: string): string
  {
    Replace(path, "\\", "/")
  }

  /** The text printed for kept line number `k` (1-based). */
  function Render(m: Mode, pattern: string, k: nat, line: string): string
  {
    match m
    case Select(_) => line
    case Number => Decimal(k) + ": " + line
    case Decorate(colour, file) =>
      var text := if colour then Highlight(line, pattern) else line;
      match file
      case None => text
      case Some(path) => Display(path) + ": " + text
  }

  /** Everything the per-line loop prints for `lines`, in order. */
  function Emitted(m: Mode, pattern: string, lines: seq<string>): seq<string>
    decreases |lines|
  {
    if lines == [] then []
    else
      var n := |lines|;
      var line := lines[n - 1];
      Emitted(m, pattern, lines[..n - 1])
        + (if Selects(RuleOf(m), pattern, line) then [Render(m, pattern, n, line)] else [])
  }

  /** The 0-based positions of the lines `rule` keeps. */
  function Positions(rule: Rule, pattern: string, lines: seq<string>): seq<nat>
    decreases |lines|
  {
    if lines == [] then []
    else
      var n := |lines|;
      Positions(rule, pattern, lines[..n - 1])
        + (if Selects(rule, pattern, lines[n - 1]) then [n - 1] else [])
  }

  /**
   * The per-line loop of every search: print each kept line, rendered, while a counter
   * starting at 1 advances on every line read; stop with an error where reading failed.
   */
  method ScanLines(m: Mode, pattern: string, reading: Reading) returns (out: seq<string>, completed: bool)
    ensures out == Emitted(m, pattern, reading.lines)
    ensures completed == !reading.failed
  {
    var lines := reading.lines;
    out := [];
    var i := 1;
    var j := 0;
    while j < |lines|
      invariant 0 <= j <= |lines|
      invariant i == j + 1
      invariant out == Emitted(m, pattern, lines[..j])
    {
      var line := lines[j];
      assert lines[..j + 1][..j] == lines[..j];
      if Selects(RuleOf(m), pattern, line) {
        out := out + [Render(m, pattern, i, line)];
      }
      i := i + 1;
      j := j + 1;
    }
    assert lines[..|lines|] == lines;
    completed := !reading.failed;
  }

  // ---------------------------------------------------------------------------
  // What the loop prints

  /** The kept positions are in range, strictly increasing, and are exactly the lines the rule keeps. */
  lemma {:induction false} PositionsExact(rule: Rule, pattern: string, lines: seq<string>)
    ensures forall j :: 0 <= j < |Positions(rule, pattern, lines)| ==> Positions(rule, pattern, lines)[j] < |lines|
    ensures forall a, b :: 0 <= a < b < |Positions(rule, pattern, lines)| ==>
              Positions(rule, pattern, lines)[a] < Positions(rule, pattern, lines)[b]
    ensures forall k :: 0 <= k < |lines| ==> (k in Positions(rule, pattern, lines) <==> Selects(rule, pattern, lines[k]))
    decreases |lines|
  {
    if lines != [] {
      var n := |lines|;
      var init, last := lines[..n - 1], lines[n - 1];
      PositionsExact(rule, pattern, init);
      var idx, idx' := Positions(rule, pattern, lines), Positions(rule, pattern, init);
      var keep := Selects(rule, pattern, last);
      assert idx == idx' + (if keep then [n - 1] else []);
      forall k | 0 <= k < n
        ensures k in idx <==> Selects(rule, pattern, lines[k])
      {
        if k < n - 1 {
          assert lines[k] == init[k];
          assert k in idx <==> k in idx';
        } else {
          assert n - 1 !in idx';
        }
      }
    }
  }

  /**
   * The loop prints one string per kept line, in file order: the `j`-th printed string is the
   * kept line at position `Positions[j]`, rendered with its 1-based number `Positions[j] + 1`.
   */
  lemma {:induction false} EmittedAtPositions(m: Mode, pattern: string, lines: seq<string>)
    ensures |Emitted(m, pattern, lines)| == |Positions(RuleOf(m), pattern, lines)|
    ensures forall j :: 0 <= j < |Emitted(m, pattern, lines)| ==>
              var k := Positions(RuleOf(m), pattern, lines)[j];
              k < |lines| && Emitted(m, pattern, lines)[j] == Render(m, pattern, k + 1, lines[k])
    decreases |lines|
  {
    if lines != [] {
      var n := |lines|;
      var init := lines[..n - 1];
      var last := lines[n - 1];
      EmittedAtPositions(m, pattern, init);
      var out, idx := Emitted(m, pattern, lines), Positions(RuleOf(m), pattern, lines);
      var out', idx' := Emitted(m, pattern, init), Positions(RuleOf(m), pattern, init);
      if Selects(RuleOf(m), pattern, last) {
        assert out == out' + [Render(m, pattern, n, last)] && idx == idx' + [n - 1];
      } else {
        assert out == out' && idx == idx';
      }
      forall j | 0 <= j < |out|
        ensures idx[j] < n && out[j] == Render(m, pattern, idx[j] + 1, lines[idx[j]])
      {
        if j < |out'| {
          var k := idx'[j];
          assert out[j] == out'[j] && idx[j] == k;
          assert k < n - 1 && lines[k] == init[k];
        }
      }
    }
  }

  /**
   * Plain, case-insensitive and inverted search print exactly the lines their rule keeps,
   * unchanged and in file order: the output is the subsequence of the input at the kept
   * positions, and a position is kept iff its line satisfies the rule.
   */
  lemma SelectedLines(rule: Rule, pattern: string, lines: seq<string>)
    ensures var out, idx := Emitted(Select(rule), pattern, lines), Positions(rule, pattern, lines);
      && |out| == |idx|
      && (forall j :: 0 <= j < |out| ==> idx[j] < |lines| && out[j] == lines[idx[j]])
      && (forall a, b :: 0 <= a < b < |idx| ==> idx[a] < idx[b])
      && (forall k :: 0 <= k < |lines| ==> (k in idx <==> Selects(rule, pattern, lines[k])))
  {
    EmittedAtPositions(Select(rule), pattern, lines);
    PositionsExact(rule, pattern, lines);
  }

  /** Every printed line satisfies the rule and is a line of the input. */
  lemma SelectedMembers(rule: Rule, pattern: string, lines: seq<string>)
    ensures forall x :: x in Emitted(Select(rule), pattern, lines) <==> x in lines && Selects(rule, pattern, x)
  {
    SelectedLines(rule, pattern, lines);
    var out, idx := Emitted(Select(rule), pattern, lines), Positions(rule, pattern, lines);
    forall x | x in lines && Selects(rule, pattern, x)
      ensures x in out
    {
      var k :| 0 <= k < |lines| && lines[k] == x;
      var j :| 0 <= j < |idx| && idx[j] == k;
      assert out[j] == x;
    }
  }

  /**
   * Line-number mode: the `j`-th printed string is "{k}: {line}" where k is that line's
   * 1-based position in the file, the line contains the pattern, and the numbers printed
   * strictly increase.
   */
  lemma NumberedLines(pattern: string, lines: seq<string>)
    ensures var out, idx := Emitted(Number, pattern, lines), Positions(Plain, pattern, lines);
      && |out| == |idx|
      && (forall j :: 0 <= j < |out| ==>
            idx[j] < |lines| && Contains(lines[idx[j]], pattern)
            && out[j] == Decimal(idx[j] + 1) + ": " + lines[idx[j]])
      && (forall a, b :: 0 <= a < b < |idx| ==> idx[a] + 1 < idx[b] + 1)
      && (forall k :: 0 <= k < |lines| ==> (k in idx <==> Contains(lines[k], pattern)))
  {
    EmittedAtPositions(Number, pattern, lines);
    PositionsExact(Plain, pattern, lines);
  }

  /** A case-sensitive match is also a case-insensitive one. */
  lemma IgnoreCaseKeepsPlain(pattern: string, line: string)
    ensures Selects(Plain, pattern, line) ==> Selects(IgnoreCase, pattern, line)
  {
    LowerKeepsContainment(line, pattern);
  }

  // ---------------------------------------------------------------------------
  // Inverted search complements plain search

  /** For each line, whether it contains the pattern. */
  function Matches(pattern: string, lines: seq<string>): seq<bool>
  {
    seq(|lines|, k requires 0 <= k < |lines| => Contains(lines[k], pattern))
  }

  /** Interleave `kept` and `dropped` by position: position k takes the next of `kept` when `flags[k]`. */
  function Merge(flags: seq<bool>, kept: seq<string>, dropped: seq<string>): seq<string>
    decreases |flags|
  {
    if flags == [] then []
    else if flags[|flags| - 1] then
      if kept == [] then [] else Merge(flags[..|flags| - 1], kept[..|kept| - 1], dropped) + [kept[|kept| - 1]]
    else
      if dropped == [] then [] else Merge(flags[..|flags| - 1], kept, dropped[..|dropped| - 1]) + [dropped[|dropped| - 1]]
  }

  lemma MergeTakesKept(flags: seq<bool>, kept: seq<string>, dropped: seq<string>, x: string)
    requires flags != [] && flags[|flags| - 1]
    ensures Merge(flags, kept + [x], dropped) == Merge(flags[..|flags| - 1], kept, dropped) + [x]
  {
    assert (kept + [x])[..|kept|] == kept;
  }

  lemma MergeTakesDropped(flags: seq<bool>, kept: seq<string>, dropped: seq<string>, x: string)
    requires flags != [] && !flags[|flags| - 1]
    ensures Merge(flags, kept, dropped + [x]) == Merge(flags[..|flags| - 1], kept, dropped) + [x]
  {
    assert (dropped + [x])[..|dropped|] == dropped;
  }

  lemma {:induction false} MergeRestores(pattern: string, lines: seq<string>, flags: seq<bool>)
    requires |flags| == |lines|
    requires forall k :: 0 <= k < |lines| ==> flags[k] == Contains(lines[k], pattern)
    ensures |Emitted(Select(Plain), pattern, lines)| + |Emitted(Select(Invert), pattern, lines)| == |lines|
    ensures Merge(flags, Emitted(Select(Plain), pattern, lines), Emitted(Select(Invert), pattern, lines)) == lines
    decreases |lines|
  {
    if lines != [] {
      var n := |lines|;
      var init, last := lines[..n - 1], lines[n - 1];
      assert lines == init + [last];
      MergeRestores(pattern, init, flags[..n - 1]);
      var plain, inverted := Emitted(Select(Plain), pattern, init), Emitted(Select(Invert), pattern, init);
      if Contains(last, pattern) {
        assert Emitted(Select(Plain), pattern, lines) == plain + [last];
        assert Emitted(Select(Invert), pattern, lines) == inverted;
        MergeTakesKept(flags, plain, inverted, last);
      } else {
        assert Emitted(Select(Plain), pattern, lines) == plain;
        assert Emitted(Select(Invert), pattern, lines) == inverted + [last];
        MergeTakesDropped(flags, plain, inverted, last);
      }
    }
  }

  /**
   * Plain and inverted search split the file between them: every line goes to exactly one of
   * the two outputs, and merging them back by position gives the whole file.
   */
  lemma InvertComplementsPlain(pattern: string, lines: seq<string>)
    ensures |Emitted(Select(Plain), pattern, lines)| + |Emitted(Select(Invert), pattern, lines)| == |lines|
    ensures Merge(Matches(pattern, lines), Emitted(Select(Plain), pattern, lines), Emitted(Select(Invert), pattern, lines)) == lines
  {
    MergeRestores(pattern, lines, Matches(pattern, lines));
  }

  // ---------------------------------------------------------------------------
  // Highlighting and file names

  /** A shown path has no backslash left and as many characters as the path. */
  lemma DisplayHasNoBackslash(path: string)
    ensures Display(path) == MapChar(path, '\\', '/')
    ensures |Display(path)| == |path| && '\\' !in Display(path)
  {
    ReplaceCharIsMap(path, '\\', '/');
  }

  /**
   * Recursive search with colour and file names: each printed line is the shown path and ": "
   * outside the highlighted line; the highlighted line is the pieces between occurrences of the
   * pattern joined with the red pattern, the same pieces joined with the bare pattern give back
   * the line read, and a line with no occurrence is never printed.
   */
  lemma ColouredNamedLines(pattern: string, path: string, lines: seq<string>)
    ensures var out, idx := Emitted(Decorate(true, Some(path)), pattern, lines), Positions(Plain, pattern, lines);
      && |out| == |idx|
      && forall j :: 0 <= j < |out| ==>
           idx[j] < |lines| &&
           var line := lines[idx[j]];
           && Contains(line, pattern)
           && out[j] == Display(path) + ": " + Join(Split(line, pattern), Red(pattern))
           && Join(Split(line, pattern), pattern) == line
           && '\\' !in Display(path)
  {
    EmittedAtPositions(Decorate(true, Some(path)), pattern, lines);
    PositionsExact(Plain, pattern, lines);
    DisplayHasNoBackslash(path);
    var idx := Positions(Plain, pattern, lines);
    forall j | 0 <= j < |idx|
      ensures Join(Split(lines[idx[j]], pattern), pattern) == lines[idx[j]]
    {
      RejoinRestores(lines[idx[j]], pattern);
    }
  }
}
