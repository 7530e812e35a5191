# Duplo duplicate-block finder, modelled in Dafny

Duplo finds duplicated blocks of source code. Each listed file is reduced to
its significant lines. Block comments are stripped with a counter that carries
from line to line. Line comments are cut per file type. A filter then keeps a
line only if its first token is long enough, is not preprocessor noise and has
a letter. Every file is compared with itself and with every later file. The
comparison fills a line-equality matrix and walks its diagonals in two sweeps,
reporting each run of equal lines that reaches the effective threshold.

The model has five modules:

- `StringUtil` (StringUtil.dfy): `trim`, `split`, `substitute` and `StrSub`,
  with the `std::string` find operations they use. `trim` really returns the
  first whitespace-delimited token.
- `SourceFiles` (SourceFile.dfy): the line normaliser. It has the block-comment
  character loop, `getCleanLine`, `isSourceLine`, and the `SourceFile` class
  whose constructor threads the comment counter through the raw lines.
- `DiagonalRuns` (DiagonalRuns.dfy): the run counter both sweeps keep along one
  diagonal, as a function of the diagonal's match bits.
- `Duplo` (Duplo.dfy): `Clamp`, the threshold, the file-name helpers, and the
  function `PairScan`, which specifies the blocks one comparison reports. The
  class `Duplo` holds the matrix as an `array<bool>`, the report trace and the
  duplicate-line counter. Its `Process` is proved to report exactly `PairScan`,
  in order. `Run` is proved to make every comparison in the order of `Pairs`.
- `XmlGenerator` (XmlGenerator.dfy): the four-step `StrSub` escape chain of the
  XML writer's `reportSeq`, and the writer itself over a sequence of XML items.

Where the code and its design description disagree, the model follows the code:

- A kept line is tagged with its 0-based raw index, not a 1-based line number.
- The stored text of a kept line is the cleaned line as it was, not lowercased.
  `isSourceLine` lowercases only a local copy.
- `isSourceLine` tests only the first whitespace-delimited token of the line,
  because that is what `trim` returns.
- A run still open at the end of a diagonal is reported at the last lines of
  both files, not where it lies on the diagonal.

## Model

| member | source | states |
|---|---|---|
| `StringUtil.FindIsFirst` | StringUtil.cpp:52 | `find` returns the first occurrence at or after the start position, and npos only when there is none |
| `StringUtil.ContainsMeansOccurs` | StringUtil.cpp:52 | `find(pat, 0) != npos` holds exactly when the pattern occurs somewhere |
| `StringUtil.LastIndexOf` | Duplo.cpp:181 | `rfind(c)` gives a position holding `c` with no `c` after it, or npos when `c` is absent |
| `StringUtil.Trim` | StringUtil.cpp:27-38 | the result contains no whitespace, and it is empty exactly when the input is all whitespace |
| `StringUtil.TrimIsFirstToken` | StringUtil.cpp:27-38 | the result is the first token of the input: it follows only whitespace and is followed by whitespace or the end |
| `StringUtil.TrimIdempotent` | StringUtil.cpp:27-38 | `trim(trim(s)) == trim(s)` |
| `StringUtil.OccurrencesFacts` | StringUtil.cpp:70-76 | the positions split's search loop collects are occurrences of the delimiter, in increasing order, each at least one delimiter length after the previous one |
| `StringUtil.MarkersWellFormed` | StringUtil.cpp:68-79 | the marker list starts at `-|delimiter|` and ends at `|input|`, and each piece between consecutive markers lies inside the input |
| `StringUtil.JoinPieces` | StringUtil.cpp:63-99 | the pieces split cuts, joined with the delimiter, give back the input |
| `StringUtil.SearchMarkers` | StringUtil.cpp:63-79 | the positions vector is `-|delimiter|`, every find from `|delimiter|` on, then `|input|`; `numFound` is one less than its length |
| `StringUtil.AppendPieces` | StringUtil.cpp:81-97 | appends, in order, the text between consecutive markers, trimmed when `doTrim` is set |
| `StringUtil.Split` | StringUtil.cpp:49-100 | existing results are kept; with the delimiter absent one piece (input or its trim) is appended and 0 returned; otherwise every piece is appended and their number returned |
| `StringUtil.Substituted` | StringUtil.cpp:102-112 | the length is kept, every position holding `s` holds `d`, and every other position is unchanged |
| `StringUtil.Substitute` | StringUtil.cpp:102-112 | the in-place loop over the copy computes `Substituted` |
| `StringUtil.PendingDecreases` | StringUtil.cpp:124-136 | with a negative count, each replacement of a single character that does not recur in the replacement's tail leaves fewer occurrences to find, so the loop ends |
| `StringUtil.SubLoopTrace` | StringUtil.cpp:124-136 | at most `num_times` replacements, left to right, each search resuming `|for_this|` after the last match; the loop stops early only at a failed search; no replacement leaves the text as it was |
| `StringUtil.SubLoopRounds` | StringUtil.cpp:124-136 | the run is a chain of buffer contents from the input to the final text: each recorded position is the first occurrence `find` returns from where that round resumed (the start, then `|for_this|` past the previous match), and each round replaces exactly that occurrence by `sub_this` |
| `StringUtil.RoundAt` | StringUtil.cpp:124-136 | read by index, round k searches the k-th buffer content from its resume position, finds the k-th recorded position and produces the (k+1)-th content by replacing there |
| `StringUtil.StrSub` | StringUtil.cpp:116-137 | the in-place loop with its moving search position computes `StrSubbed`, which turns an empty `cp` into `sub_this` |
| `StringUtil.StrSubNoMatch` | StringUtil.cpp:124-136 | a non-empty text in which `for_this` never occurs is left unchanged |
| `StringUtil.UnboundedSubIsReplaceChar` | StringUtil.cpp:124-136 | an unbounded replacement of one character, from a search position on, replaces every occurrence of it there |
| `StringUtil.StrSubAllIsReplaceChar` | StringUtil.cpp:116-137 | `StrSub(cp, sub, c, -1)` on a non-empty `cp` replaces every `c`, as the reference `ReplaceChar` does |
| `SourceFiles.StripBlockComments` | SourceFile.cpp:59-79 | a character is kept when the counter, after the opener test at it and before the closer test ending at it, is at most 0; the counter ends at `CounterAfter` |
| `SourceFiles.NoOpenerKeepsLine` | SourceFile.cpp:59-79 | outside any comment, a line without an opener is kept whole and the counter does not rise |
| `SourceFiles.NoCloserDropsLine` | SourceFile.cpp:59-79 | inside a comment, a line without a closer yields nothing and the counter does not fall |
| `SourceFiles.StripBlockShorter` | SourceFile.cpp:59-79 | stripping never lengthens a line |
| `SourceFiles.StrayCloserKeepsLaterComment` | SourceFile.cpp:75-78 | a stray closer drives the counter to -1, and a comment later on the same line is then kept, delimiters included |
| `SourceFiles.CutFromIsFirst` | SourceFile.cpp:108-135 | the cut position is the first line-comment marker, or the end of the line |
| `SourceFiles.GetCleanLine` | SourceFile.cpp:102-136 | the copy loop with its early return yields `CleanLine` |
| `SourceFiles.CleanLineIsPrefixToFirstMarker` | SourceFile.cpp:102-136 | the cleaned line is a prefix with no marker in it that stops short only at a marker (`//` for brace types, a quote that is not the last character for VB); other types keep the whole line |
| `SourceFiles.Lower` | SourceFile.cpp:147 | same length, every character mapped by `tolower` |
| `SourceFiles.ShortLinesRejected` | SourceFile.cpp:139-145 | a line whose trimmed token is shorter than `minChars` is never a source line |
| `SourceFiles.ShortLineDropped` | SourceFile.cpp:139-145 | with `minChars` 10, `int x;` is dropped, because its token `int` has 3 characters |
| `SourceFiles.PreprocessorRejected` | SourceFile.cpp:149-170 | under ignorePrepStuff, a C, C++, header, Java, QML or C# token starting with `#` is rejected |
| `SourceFiles.CSharpKeywordRejected` | SourceFile.cpp:165-179 | under ignorePrepStuff, a C# token containing `using`, `private`, `protected` or `public` is rejected |
| `SourceFiles.VBImportsDecides` | SourceFile.cpp:181-187 | under ignorePrepStuff, a long enough VB token is kept exactly when it holds no `imports`, with no letter test |
| `SourceFiles.LowerKeepsAlpha` | SourceFile.cpp:147-197 | lowercasing neither adds nor removes letters |
| `SourceFiles.PlainFilter` | SourceFile.cpp:138-198 | without ignorePrepStuff, a line is a source line exactly when its token is at least `minChars` long and has a letter |
| `SourceFiles.SourceLineHasLetter` | SourceFile.cpp:194-197 | except for VB under ignorePrepStuff, every source line contains a letter |
| `SourceFiles.CollectedFaithful` | SourceFile.cpp:39-100 | each raw line gives at most one source line, in order, tagged with its 0-based index; each entry is the cleaned text of its raw line and passes the filter; every raw line that passes appears |
| `SourceFiles.UnknownTypeYieldsNothing` | SourceFile.cpp:46-86 | for a type that is neither brace nor VB the handed-on text stays empty, so the file yields no source lines |
| `SourceFiles.VBLinesPassThrough` | SourceFile.cpp:81-84 | VB lines reach `AddToLines` unchanged |
| `SourceFiles.ThreeLineCommentYieldsNothing` | SourceFile.cpp:41-89 | a block comment spread over three C lines yields no source line, because the counter carries across the lines |
| `SourceFiles.SourceFile.constructor` | SourceFile.cpp:29-90 | one counter threads through all lines; the result is `Collected` over the raw lines, and the raw line count is recorded |
| `SourceFiles.SourceFile.AddToLines` | SourceFile.cpp:92-100 | appends the cleaned text tagged with its index exactly when it passes `isSourceLine` |
| `SourceFiles.SourceFile.NumOfLinesOfCode` | SourceFile.cpp:200-202 | the number of source lines never exceeds the raw line count |
| `DiagonalRuns.OpenRun` | Duplo.cpp:112-119 | `seqLen` at the end of a diagonal counts its trailing matches, preceded by a mismatch or the start |
| `DiagonalRuns.ClosedRunsSound` | Duplo.cpp:114-135 | every run a mismatch ends and reports is at least `T` long, all matches, ended by a mismatch, starting at the diagonal start or after a mismatch, and in order |
| `DiagonalRuns.ClosedRunsComplete` | Duplo.cpp:114-135 | every mismatch preceded by at least `T` matches reports that run |
| `Duplo.Clamp` | Duplo.cpp:317-320 | the result is at least `lower`, at most `upper` when the range is non-empty, and the value itself when inside it |
| `Duplo.Threshold` | Duplo.cpp:100-105 | the effective threshold is at least 1, at most `max(1, minBlockSize)` and `max(1, max(n,m)*100/pct)`; it is `minBlockSize` when that is within the percentage cap, the cap `max(n,m)*100/pct` when the cap is positive and below `minBlockSize`, and 1 when either is 0 |
| `Duplo.ThresholdFullPercent` | Duplo.cpp:100-105 | at 100 percent the threshold is `max(1, min(minBlockSize, max(n,m)))` |
| `Duplo.ThresholdMonotone` | Duplo.cpp:100-105 | a larger percentage never raises the threshold |
| `Duplo.ThresholdHalfOfTen` | Duplo.cpp:100-105 | two 10-line files at 50 percent: any `minBlockSize` up to 20 stands |
| `Duplo.ZeroPercentPassesClamp` | Duplo.cpp:341 | `Clamp(100, 0, 0)` is 0: the clamp lets a zero percentage through to the threshold's division, which `Threshold` excludes by requiring `pct > 0` |
| `Duplo.PercentArgument` | Duplo.cpp:341 | clamping into 1..100 always gives a usable percentage and keeps every value from 1 to 100 |
| `Duplo.FilenamePart` | Duplo.cpp:176-187 | the result is a suffix of the path with no `/` or `\`; when shorter than the path it follows a separator |
| `Duplo.BaseNameOf` | Duplo.cpp:181-184 | the base name is the text after the last separator of either kind |
| `Duplo.SameFilenameEquivalence` | Duplo.cpp:189-191 | same base name is reflexive, symmetric and transitive |
| `Duplo.SameFilenameExamples` | Duplo.cpp:176-191 | `d/a` and `e\a` share a name, and so do `a` and `d/e/a`; `d/a` and `d/b` do not |
| `Duplo.LongestFileFailsCapacityAssert` | Duplo.cpp:80-81 | the longest file, all code, compared with itself fits the matrix exactly, yet fails the assert |
| `Duplo.MatrixSize` | Duplo.cpp:262-268 | any two files of at most `maxLinesPerFile` lines have at most that many cells |
| `Duplo.CellsFit` | Duplo.cpp:262-268 | `m <= max` and `n <= max` give `m*n <= max*max` |
| `Duplo.CellIndex` | Duplo.cpp:92 | cell (y, x) sits at `x+n*y`, below `m*n`, and that index determines y and x |
| `Duplo.MatrixAt` | Duplo.cpp:116 | every index a sweep reads is below `m*n` and holds whether the two lines match |
| `Duplo.VRunBlock` | Duplo.cpp:120-133 | a vertical run ended by a mismatch becomes a block with `line1 - line2 == y`, all cells matching, maximal on both ends, unless it is the identity block |
| `Duplo.HRunBlock` | Duplo.cpp:155-162 | a horizontal run ended by a mismatch becomes `(y-seqLen, x+y-seqLen)`, all lines matching, maximal, `x` apart |
| `Duplo.VTrailSound` | Duplo.cpp:138-145 | a vertical run open at the diagonal's end is reported at `(m-seqLen, n-seqLen)`, never as an identity block |
| `Duplo.HTrailSound` | Duplo.cpp:166-169 | a horizontal run open at the diagonal's end is reported at `(m-seqLen, n-seqLen)` |
| `Duplo.ScanSound` | Duplo.cpp:107-173 | every block of both sweeps is in bounds and at least `T` long; it is a maximal duplicate, or a trailing block at the corner |
| `Duplo.PairScanSound` | Duplo.cpp:107-173 | as written: each block has `count >= T`, lies in both files, is never a line against itself for one file name, and is a maximal duplicate or a trailing block at the corner |
| `Duplo.PairScanComplete` | Duplo.cpp:107-173 | as written: every maximal duplicate of at least `T` lines that ends at a mismatch, or at the end of both files, is reported |
| `Duplo.SelfComparisonSound` | Duplo.cpp:128-145 | comparing a file with itself, every trailing block hits the identity filter, so all reported blocks are genuine duplicates |
| `Duplo.TrailingRunLost` | Duplo.cpp:138-145 | `p q p q` against itself at threshold 2 reports nothing, though lines 2-3 repeat lines 0-1 |
| `Duplo.TrailingRunMisplaced` | Duplo.cpp:138-145 | for `p q r` against `q r s u`, the run `q r` is reported at lines 1 and 2, which differ |
| `Duplo.ThreeEqualLines` | Duplo.cpp:70-174 | two differently named files of the same three distinct lines at threshold 2 give exactly one block `(0, 0, 3)` |
| `Duplo.CorrectedPairScanSound` | Duplo.cpp:138-145 | with the open run placed on its diagonal, every block is a maximal duplicate |
| `Duplo.CorrectedPairScanComplete` | Duplo.cpp:138-145 | with the open run placed on its diagonal, every maximal duplicate of at least `T` lines is reported |
| `Duplo.CorrectedPairScanExact` | Duplo.cpp:107-173 | the corrected scan reports a block exactly when it is a duplicate |
| `Duplo.CompareBySweeps` | Duplo.cpp:109-171 | one comparison reports its vertical sweep, then the horizontal sweep only when the file names differ |
| `Duplo.Load` | Duplo.cpp:241-252 | a list line gives a file exactly when it is longer than five characters and the file has lines; that file keeps its name and raw line count |
| `Duplo.CorpusMembers` | Duplo.cpp:239-255 | every loaded file comes from a qualifying list line, and every qualifying list line is loaded |
| `Duplo.MaxLines` | Duplo.cpp:257-262 | the matrix side is the largest raw line count of the loaded files |
| `Duplo.MaxElement` | Duplo.cpp:257-260 | `max_element` by raw line count: the first longest file, and the end iterator exactly when no file was loaded |
| `Duplo.EmptyCorpusHasNoLongest` | Duplo.cpp:239-262 | a list naming only an empty file loads nothing, so the iterator run dereferences is the end iterator |
| `Duplo.Longest` | Duplo.cpp:257-262 | the matrix side with the empty corpus guarded: no loaded file is longer, it is some file's length when any was loaded, and 0 when none was |
| `Duplo.PairsOrder` | Duplo.cpp:280-292 | each file with itself first, then every later file unless `-d` skips a same base name; strictly increasing row-major order, none twice |
| `Duplo.ReportSound` | Duplo.cpp:276-301 | every block of a run comes from one comparison that run makes |
| `Duplo.Duplo.constructor` | Duplo.cpp:36-54 | the options are stored, and the counters and reports start empty |
| `Duplo.Duplo.ReportSeq` | Duplo.cpp:59-68 | appends one block to the report trace and adds its `count` to `m_DuplicateLines` |
| `Duplo.Duplo.ClearCells` | Duplo.cpp:84 | clears the first `m*n` cells and leaves the rest alone |
| `Duplo.Duplo.FillRow` | Duplo.cpp:88-94 | sets row y's cells from line y of file1 against each line of file2 |
| `Duplo.Duplo.FillMatrix` | Duplo.cpp:83-95 | afterwards cell `x+n*y` is true exactly when line y of file1 equals line x of file2; cells beyond `m*n` are untouched |
| `Duplo.Duplo.Hit` | Duplo.cpp:116 | reading a cell tells whether the two lines match |
| `Duplo.Duplo.VerticalCell` | Duplo.cpp:114-135 | one vertical cell extends `seqLen` on a match; on a mismatch it reports the run if it is long enough and not the identity, then resets |
| `Duplo.Duplo.VerticalRuns` | Duplo.cpp:112-136 | the cell loop of diagonal y reports its closed runs and leaves `seqLen` at the open run |
| `Duplo.Duplo.VerticalTrail` | Duplo.cpp:138-145 | the open run, when long enough, is reported at `(m-seqLen, n-seqLen)` unless that is the identity |
| `Duplo.Duplo.ScanVertical` | Duplo.cpp:110-146 | one vertical diagonal reports `VScan`, adds its lines to the counter and returns its block count |
| `Duplo.Duplo.VerticalStep` | Duplo.cpp:110-146 | one diagonal's reports extend those of the diagonals before it |
| `Duplo.Duplo.VerticalSweep` | Duplo.cpp:110-146 | the vertical sweep reports every diagonal's blocks, diagonal by diagonal |
| `Duplo.Duplo.HorizontalCell` | Duplo.cpp:154-163 | one horizontal cell extends `seqLen` on a match; on a mismatch it reports the run if it is long enough, then resets |
| `Duplo.Duplo.HorizontalRuns` | Duplo.cpp:152-164 | the cell loop of diagonal x reports its closed runs and leaves `seqLen` at the open run |
| `Duplo.Duplo.HorizontalTrail` | Duplo.cpp:166-169 | the open run, when long enough, is reported at `(m-seqLen, n-seqLen)` |
| `Duplo.Duplo.ScanHorizontal` | Duplo.cpp:151-170 | one horizontal diagonal reports `HScan`, adds its lines to the counter and returns its block count |
| `Duplo.Duplo.HorizontalStep` | Duplo.cpp:151-170 | one diagonal's reports extend those of the diagonals before it |
| `Duplo.Duplo.HorizontalSweep` | Duplo.cpp:148-171 | the horizontal sweep reports diagonals 1 .. n-1, in order |
| `Duplo.Duplo.ProcessTexts` | Duplo.cpp:83-173 | fills the matrix, then reports the vertical sweep and, for different file names, the horizontal one |
| `Duplo.Duplo.Process` | Duplo.cpp:70-174 | the reports grow by exactly `PairScan` at the effective threshold; `m_DuplicateLines` grows by the sum of their counts; the return value is their number |
| `Duplo.Duplo.LoadFile` | Duplo.cpp:241-253 | a list line is loaded as a valid source file when its name is longer than five characters and the file has lines |
| `Duplo.Duplo.LoadFiles` | Duplo.cpp:239-255 | loads the corpus in list order and sums the raw line counts |
| `Duplo.Duplo.MaxLinesOf` | Duplo.cpp:257-262 | finds the largest raw line count |
| `Duplo.Duplo.LoadedFilesAre` | Duplo.cpp:257-268 | no loaded file is longer than the matrix side |
| `Duplo.Duplo.LongestOf` | Duplo.cpp:257-262 | the matrix side is `Longest` of the loaded files: `max_element`'s length, and 0 for an empty corpus |
| `Duplo.Duplo.CompareStep` | Duplo.cpp:285-290 | one comparison's reports extend those of the comparisons before it |
| `Duplo.Duplo.CompareLater` | Duplo.cpp:288-291 | file i against later file j, skipped only under `-d` for a same base name |
| `Duplo.Duplo.CompareLaterFiles` | Duplo.cpp:286-292 | file i against every later file, in order |
| `Duplo.Duplo.CompareRound` | Duplo.cpp:280-301 | file i against itself, then against the later files |
| `Duplo.Duplo.ComparePairs` | Duplo.cpp:276-301 | all rounds in order; `blocksTotal` counts every reported block |
| `Duplo.Duplo.RunLoaded` | Duplo.cpp:257-301 | sizes the matrix to the square of the longest file (0 lines when none was loaded), then reports exactly `Report` |
| `Duplo.Duplo.Run` | Duplo.cpp:193-315 | returns the file count and the summed raw line count; reports grow by `Report` and `m_DuplicateLines` by its line total; an empty corpus reports nothing and returns 0 files, 0 blocks and 0 lines |
| `XmlGenerator.XmlEscapeIsEscapeChars` | XMLGenerator.cpp:41-51 | on a non-empty line the four `StrSub` calls equal the per-character escape `"`→`'`, `&`→`&amp;`, `<`→`&lt;`, `>`→`&gt;` |
| `XmlGenerator.EscapedHasNoMarkup` | XMLGenerator.cpp:41-51 | the escaped text contains no `"`, `<` or `>` |
| `XmlGenerator.AmpersandsStartEntities` | XMLGenerator.cpp:44-51 | every `&` in the escaped text begins `&amp;`, `&lt;` or `&gt;` |
| `XmlGenerator.PlainUnchanged` | XMLGenerator.cpp:39-51 | a line without `"`, `&`, `<` or `>` is written unchanged |
| `XmlGenerator.EmptyLineBecomesApostrophe` | XMLGenerator.cpp:39-51 | an empty line is written as `'`, because `StrSub` turns an empty text into its replacement |
| `XmlGenerator.UnescapeEscapeChars` | XMLGenerator.cpp:41-51 | decoding the three entities gives back the line with `"` turned into `'` |
| `XmlGenerator.XmlEscapeRoundTrip` | XMLGenerator.cpp:41-51 | a non-empty line without `"` reads back exactly |
| `XmlGenerator.EscapeLine` | XMLGenerator.cpp:41-51 | the four unbounded `StrSub` calls, applied in place one after the other, leave the line as `XmlEscape` gives it (which `XmlEscapeIsEscapeChars` relates to the per-character escape) |
| `XmlGenerator.LineItems` | XMLGenerator.cpp:36-54 | exactly `count` line entries, entry j escaping line `line1 + j` of the first file |
| `XmlGenerator.LineItemsReadBack` | XMLGenerator.cpp:36-54 | every entry of a set whose lines are non-empty reads back as its source line, with `"` turned into `'` |
| `XmlGenerator.XmlGenerator.ReportSeq` | XMLGenerator.cpp:26-57 | writes one set with `LineCount` = `count`, the two files with their start line numbers, then `count` line entries from the first file in order |

## Left out

- Reading files is left out. `TextFile` and `FileType::GetFileType` are not part of this model. The file list, each file's lines and each file's type are parameters of `Duplo.Duplo.Run`.
- The output stream, `writeHeader`, `writeSummary`, the text generator, `clock()`, the floating-point duration and the console messages are left out, because they are I/O or timing.
- `main`, `ArgumentParser` and `DisplayHelp` are argument plumbing and are left out. The options are parameters of the `Duplo` constructor.
- `Duplo.Duplo.ReportSeq`: the report generator is abstracted to a trace of `Block` values. The XML writer's own `reportSeq` is modelled separately by `XmlGenerator.XmlGenerator.ReportSeq`, over a sequence of XML items rather than formatted text.
- `SourceLine::equals` is not part of this model. Two lines are taken as equal when their stored texts are equal.
- `tolower` and `isalpha` are the ASCII C-locale versions.
- `Duplo.Load`, `SourceFiles.LineEntry` and `SourceFiles.StripBlockComments` take text one character per byte, as for ASCII input. The source's `size()` (the name length test, the `m_minChars` test) and `substr` count the bytes of a `std::string`, so a name or line with multi-byte UTF-8 characters, such as `é.cpp`, is measured differently here.
- `Duplo.Duplo.Process`: requires `pct > 0` and `m*n` no larger than the matrix. The source's `assert`, `vector::at` and the `std::out_of_range` catch in `run` are not modelled as exceptions.
- `Duplo.Duplo.Process`: the 32-bit unsigned wrap-around of `m*n`, `x+n*y` and `max(n,m)*100` is not modelled. It matters only for files of more than 65535 code lines. The `int` counters `blocks` and `m_DuplicateLines` are unbounded here.
- `StringUtil.StrSub`: with a negative `num_times` it is modelled only for a one-character `for_this` that does not recur in `sub_this` after its first character. The XML writer's four calls all have that shape. For other patterns the source loop may never end.
- `StringUtil.Split`: requires a non-empty delimiter, because the source's search loop does not end otherwise.
- `SourceFiles.IsSourceLine`: the source's `assert(bRet)` always holds at that point, so only the alphabetic test remains.
- Matrix allocation failure is left out, and so is the upper bound on file size.

## Findings

| source | as written | input that shows it | evidently intended | confidence | as-written member | corrected member |
|---|---|---|---|---|---|---|
| Duplo.cpp:138-145 | a run still open at a diagonal's end is reported at `(m-seqLen, n-seqLen)`, the last lines of both files, whichever diagonal it was on | `p q p q` compared with itself at threshold 2: lines 2-3 repeat lines 0-1, but the trailing run is moved onto the identity diagonal and dropped; `p q r` against `q r s u` reports `q r` at lines 1 and 2, which differ | report the run where it lies: `(y+len-seqLen, len-seqLen)` on vertical diagonal y | high (not executed) | `Duplo.TrailingRunLost` | `Duplo.CorrectedPairScanExact` |
| Duplo.cpp:103 | the threshold divides by `blockPercentThreshold`, and `Clamp(100, 0, v)` at Duplo.cpp:341 lets 0 through | `-pt 0`, or any negative `-pt` value | clamp the percentage into 1..100 | medium (not executed) | `Duplo.ZeroPercentPassesClamp` | `Duplo.PercentArgument` |
| Duplo.cpp:80-81 | `assert(m*n < matrix_size)`, but the matrix is sized to exactly `maxLines * maxLines` | the longest file of the corpus, every line of it code, compared with itself, e.g. a corpus of one one-line file | `m*n <= matrix_size`, which every pair meets | medium (not executed) | `Duplo.LongestFileFailsCapacityAssert` | `Duplo.CellsFit` |
| Duplo.cpp:257-262 | `m_maxLinesPerFile` is read through the iterator `max_element` returns, without checking for the end iterator | a file list whose files are all empty or have names of five characters or fewer, e.g. one empty `main.c`: nothing is loaded and the end iterator is dereferenced | an empty corpus sizes an empty matrix, compares nothing and reports 0 files, 0 blocks and 0 lines | high (not executed) | `Duplo.EmptyCorpusHasNoLongest` | `Duplo.Duplo.Run` |

The model of `process` reproduces the trailing-run placement as written. The corrected scan `CorrectedPairScan` is defined beside it and proved to report exactly the maximal duplicates. `Duplo.Duplo.Process` requires the corrected capacity condition `m*n <= matrix.Length`, and `Duplo.Threshold` requires a positive percentage. `Duplo.Duplo.Run` guards the empty corpus and sizes the matrix by `Duplo.Longest`.
