# grep-like search utility, modelled in Dafny

The program is a small command-line text search written in Rust (`src/main.rs`).
It reads its arguments as `grep <pattern> <file> [flag]` and chooses a search from the last
argument only. After a final `-f` it also looks at the argument before it for `-c`.
The searches are:

- **plain search** of a list of files. An argument holding `/*` stands for the files
  directly inside the directory named before it;
- **case-insensitive search** (`-i`);
- **line-numbered search** (`-n`);
- **inverted search** (`-v`);
- **recursive directory search** (`-r`, `-f`, `-c -f`). It can show each line after its
  file's path and can paint each occurrence of the pattern red.

Each search is the same loop: read the lines of a file in order and decide, for each line,
whether to print it and in what form.

The model has four modules:

- `Text` (`text.dfy`) covers the string operations the program takes from Rust's standard
  library:
  - `str::find` and `str::contains` (leftmost literal occurrence);
  - `str::replace`, written as splitting at the non-overlapping occurrences and joining
    with the replacement;
  - ASCII lower-casing;
  - decimal rendering of a line number.
- `Lines` (`lines.dfy`) has the per-line loop `ScanLines`, one method shared by every
  search, and the specification function `Emitted` it is proved against. Around `Emitted`
  are the lemmas about what each search prints.
- `Search` (`search.dfy`) has the searches as methods. Each one is a loop over a file's
  lines, over the entries of a directory walk, or over the file arguments, proved against
  a specification function.
- `Cli` (`cli.dfy`) has the dispatch of `main` on the arguments, and `Run`, which runs the
  chosen search.

Opening and reading files and walking directories are parameters, bundled in an `Env`:

- `read` gives a `Reading` for a path: the lines read, and whether reading ended on an
  error.
- `walk` and `walkShallow` give the entries of an unbounded and of a depth-1 walk.

What the program prints is the sequence of strings it prints, one per line.

A file that cannot be opened or read behaves differently depending on the search:

- In a recursive search it ends the whole search, because `?` propagates the error out of
  the walk loop.
- In a basic search it ends only that file.
- The single-file searches simply stop.

`main` ignores every error, so `Run` reports only the output and whether the run panicked.
Argument lists too short for the chosen search are an index out of range in Rust, which
panics before anything is printed. `Dispatch` names that case `Crash`.

One observation from the proofs: the colour-without-file-names arm of `recursive_search`
(`src/main.rs:161-184`) cannot be reached from `main`. `Dispatch` proves that `colour`
implies `filename`. The model keeps that arm anyway: `WalkMode(true, false, _)` is the
highlight with no path in front.

## Model

| member | source | states |
|---|---|---|
| Text.FindFrom | src/main.rs:68 | the result is an occurrence of the pattern at or after the start index, with no occurrence between the start and it; `None` only when no occurrence starts at or after the start |
| Text.Find | src/main.rs:68 | `str::find`: the result is an occurrence and no earlier index is one; `None` iff the pattern occurs nowhere |
| Text.Contains | src/main.rs:120 | `str::contains` holds iff the pattern occurs at some index |
| Text.EmptyPatternOccurs | src/main.rs:120 | the empty pattern occurs in every line, so an empty pattern matches every line |
| Text.ContainsChar | src/main.rs:151 | a one-character pattern is contained exactly when that character is in the string |
| Text.LowerKeepsOccurrence | src/main.rs:100 | under the model's ASCII lower-casing, lower-casing both line and pattern keeps every occurrence at the same index (not so for Rust's full Unicode mapping; see "Left out") |
| Text.LowerKeepsContainment | src/main.rs:100 | under the model's ASCII lower-casing, a line that contains the pattern still contains it after both are lower-cased (not so for Rust's full Unicode mapping; see "Left out") |
| Text.Lower | src/main.rs:100 | ASCII lower-casing: each letter A–Z becomes its lower-case letter, every other character is unchanged, the same length |
| Text.Replace | src/main.rs:151-152 | `str::replace` (also line 176): a string without the pattern is unchanged, and replacing the pattern by itself changes nothing; its cut points are stated by `Split`, `SplitCutsLeftmost` and `JoinEmptyPieces` |
| Text.Decimal | src/main.rs:256 | the rendered line number is a non-empty string of digits with no leading zero |
| Text.DecimalRoundTrip | src/main.rs:256 | reading the rendered digits back gives the number, so distinct line numbers print differently |
| Text.Split | src/main.rs:152 | splitting at the occurrences of a non-empty pattern gives at least one piece, and no piece contains the pattern |
| Text.FindIsFirst | src/main.rs:68 | an occurrence with none before it is the one `find` returns |
| Text.FirstCut | src/main.rs:152 | the text before the first occurrence, followed by the pattern, has its first occurrence right after that text |
| Text.SplitCutsLeftmost | src/main.rs:152 | the cuts are the leftmost, left-to-right occurrences: each piece but the last, followed by the pattern, has its first occurrence right after the piece, so a self-overlapping pattern is cut where the scan first meets it |
| Text.RejoinRestores | src/main.rs:152 | joining the pieces back with the pattern itself gives the original line (`replace(p, p)` is the identity) |
| Text.JoinEmptyPieces | src/main.rs:152 | with an empty pattern the pieces are an empty piece, each character on its own and an empty piece, so a replacement lands at every character boundary, start and end included; joined with "" they restore the line |
| Text.JoinCharsThenEmpty | src/main.rs:152 | the single characters of a string followed by an empty piece join back to the string |
| Text.RejoinStep | src/main.rs:152 | one step of the rejoin: the piece before the first occurrence, the pattern and the rejoined rest give the line |
| Text.ReplaceWithoutMatch | src/main.rs:151 | a string without the pattern is one piece and joins back to itself with any replacement; this gives `Replace` its no-match clause, which `Highlight` relies on |
| Text.JoinSwapsSeparator | src/main.rs:151 | joining pieces free of `x` with `y` rewrites exactly the joining `x`s of the join with `x` |
| Text.ReplaceCharIsMap | src/main.rs:151 | replacing one character by another rewrites that character at every position and nothing else |
| Lines.Selects | src/main.rs:100 | definition (no contract): the per-line test; case-insensitive search compares the lower-cased line with the lower-cased pattern, inverted search (line 120) keeps a line not containing the pattern, and plain search (lines 150, 175, 199, 224, 255, 270) keeps a line containing it |
| Lines.Red | src/main.rs:152 | definition (no contract): `red()` is the ANSI red-foreground code, the text, then the reset code |
| Lines.Highlight | src/main.rs:152 | every occurrence of the pattern replaced by the red pattern (also line 176); a line without the pattern is unchanged |
| Lines.Display | src/main.rs:151 | definition (no contract): the path with every backslash replaced by a slash (also line 200); its properties are stated by `DisplayHasNoBackslash` |
| Lines.Render | src/main.rs:151-152 | definition (no contract): the printed form of a kept line; the line as read for plain, `-i` and `-v` (lines 101, 121, 225, 271); "{k}: line" for `-n` (line 256); in a recursive search the highlighted line when colour is on (line 176), after the shown path and ": " when file names are on (lines 151-152, 200-201) |
| Lines.ScanLines | src/main.rs:243-276 | the per-line loop (with its 1-based counter) prints exactly `Emitted` of the lines read, and completes iff reading did not fail |
| Lines.PositionsExact | src/main.rs:267-273 | the kept positions are in range, strictly increasing, and a position is kept iff its line satisfies the rule |
| Lines.EmittedAtPositions | src/main.rs:251-259 | one string is printed per kept line; the j-th is the kept line at `Positions[j]` rendered with number `Positions[j] + 1` |
| Lines.SelectedLines | src/main.rs:267-273 | plain, case-insensitive and inverted search print the subsequence of the file at exactly the positions whose lines satisfy the rule, unchanged and in order |
| Lines.SelectedMembers | src/main.rs:97-103 | a string is printed iff it is a line of the file that satisfies the rule |
| Lines.NumberedLines | src/main.rs:251-259 | line-number mode prints "{k}: line" with k the 1-based position of a line containing the pattern, every line containing the pattern is numbered and printed, and the printed numbers strictly increase |
| Lines.IgnoreCaseKeepsPlain | src/main.rs:100 | under the model's ASCII lower-casing, every line plain search (line 270) keeps, the case-insensitive search keeps too (not so for Rust's full Unicode mapping; see "Left out") |
| Lines.MergeTakesKept | src/main.rs:120 | merging with a final kept flag ends with the last kept line |
| Lines.MergeTakesDropped | src/main.rs:120 | merging with a final dropped flag ends with the last dropped line |
| Lines.MergeRestores | src/main.rs:117-123 | the plain and inverted outputs have lengths summing to the file's, and interleaving them by the match flags gives the file back |
| Lines.InvertComplementsPlain | src/main.rs:117-123 | inverted search is the complement of plain search: each line goes to exactly one of the two, and merging them back by position restores the file |
| Lines.DisplayHasNoBackslash | src/main.rs:151 | the shown path is the path with every backslash turned into a slash: the same length, and no backslash left |
| Lines.ColouredNamedLines | src/main.rs:147-153 | with colour and file names, each printed line is the shown path and ": " outside the highlight, then the pieces of a matching line joined with the red pattern; the same pieces joined with the bare pattern give the line, and lines without a match are not printed |
| Search.SearchOneFile | src/main.rs:243-276 | prints exactly the lines of the file that contain the pattern (numbered "{k}: line" when asked, every containing line numbered by its 1-based position), and completes iff reading did not fail |
| Search.CaseInsensitiveSearch | src/main.rs:88-105 | prints exactly the lines whose lower-cased form contains the lower-cased pattern, as read |
| Search.InvertingSearch | src/main.rs:108-125 | prints exactly the lines that do not contain the pattern |
| Search.SearchEntry | src/main.rs:137-159 | one walked entry: nothing for a directory, the fixed message for a path that is not text, the file's rendered matching lines otherwise |
| Search.RecursiveSearch | src/main.rs:132-236 | the walk loop prints the entries' outputs in walk order and stops right after the first file that fails, reporting the failure |
| Search.SequenceStep | src/main.rs:137-159 | in the walk loop, the entry at the current index either ends the search with its output added, or adds its output and hands on to the entries after it |
| Search.SequenceCons | src/main.rs:143 | a failing first step is the whole run; otherwise its output comes before the rest's |
| Search.SequenceStopsAtFailure | src/main.rs:143 | once a step fails, later steps add nothing to the run |
| Search.SequenceContinues | src/main.rs:143 | when every earlier step completes, the run goes on with the later ones |
| Search.EntryReportsSplit | src/main.rs:137 | the per-entry reports of a concatenated walk are the concatenated reports |
| Search.WalkStopsAtFailure | src/main.rs:143 | a recursive search stops at the first file that cannot be opened or read; while earlier files succeed, it goes on to later entries |
| Search.DirectoryOf | src/main.rs:68-69 | an argument is a wildcard iff it contains `/*`; the directory is the text before the first `/*`, and it holds no `/*` itself |
| Search.FlattenAppend | src/main.rs:66 | adding one more output at the end of the outputs printed in turn |
| Search.FlattenSplits | src/main.rs:66 | outputs printed in turn split over any division of the list |
| Search.SearchDirectoryFiles | src/main.rs:71-80 | the wildcard branch prints, in walk order, the message for a non-text path and the matching lines of each file at depth 1, ignoring errors |
| Search.BasicSearch | src/main.rs:63-85 | each argument in turn: the files directly in the directory for a wildcard argument, the file itself otherwise, and an error ends only that file |
| Search.BasicOutputSplits | src/main.rs:66-84 | the output for a list of file arguments is the outputs for any two parts of it, one after the other |
| Cli.Dispatch | src/main.rs:13-59 | the choice depends only on the last argument and, after `-f`, on the one before: `-h` is help, `-i`/`-n`/`-v` the single-file searches, `-r` and `-f` recursive with file names iff `-f` and colour iff `-c -f`; every search but the basic one takes the pattern from the second argument and its file or directory from the third, ignoring any arguments between that and the flag; any other last argument (including `--help`) is basic search over arguments 3 on; too few arguments panic |
| Cli.LongHelpIsBasicSearch | src/main.rs:56-58 | `--help` is not recognised: as the last argument after a pattern it becomes one more file of a basic search, and alone after the program name it is the pattern |
| Cli.Output | src/main.rs:15-58 | definition (no contract): what each arm of `main` prints; the help text, the chosen search's output with its error dropped, nothing for a panic |
| Cli.Run | src/main.rs:8-60 | a run panics iff the dispatch does, and prints what the chosen search prints |

## Left out

- File I/O is not modelled. Opening a file and decoding it into lines (`BufReader::lines`, its UTF-8 check, how it strips line ends) are abstracted to a `Reading`: the lines read before an error, and whether an error happened.
- The directory walk is not modelled. `walkdir`'s order, its depth handling and the entries it drops on errors are the parameters `walk` and `walkShallow`. The rule that a depth-1 walk yields a subset of the full walk is not stated.
- Whether a path is valid text (`Path::to_str`) is the `Entry.path` option. It is not decided from the path's bytes.
- `Text.Lower` lower-cases ASCII letters only. Rust's `to_lowercase` is full Unicode case mapping, and can change a string's length.
- Text.LowerKeepsOccurrence: holds only for the model's ASCII lower-casing. Rust's `to_lowercase` can change a string's length; for example `'İ'` becomes two characters, which moves later occurrences to other indices.
- Text.LowerKeepsContainment: holds only for the model's ASCII lower-casing. Rust applies the final-sigma rule: `"AΣ".to_lowercase()` is `"aς"` while `"Σ".to_lowercase()` is `"σ"`, so `AΣ` contains `Σ` but its lower-cased form does not contain the lower-cased pattern.
- Lines.IgnoreCaseKeepsPlain: holds only for the model's ASCII lower-casing. With pattern `Σ`, the program's plain search keeps the line `AΣ` while its `-i` search drops it, by the final-sigma rule above.
- Indices are counted in characters, where Rust's `find` and slices count bytes. The text before the first `/*` is the same either way.
- `Lines.Red` is always the ANSI red code around the text. The colour crate can turn colouring off through the environment or the terminal; that is not modelled.
- `Lines.ScanLines`: the line counter is unbounded, where Rust's is a 32-bit integer. It would overflow after 2^31 - 1 lines in a debug build, and that is not modelled.
- `print!` and `println!` are not modelled as a byte stream. Each printed line is one element of the output sequence, with `print!("{}: ", path)` joined to the line after it. The help text is one element holding its own line breaks.
- `Cli.Dispatch`: every panic (a missing argument, and the `size - 2` underflow when `-f` is the only argument) is the single result `Crash`. The panic message on standard error is not modelled.
