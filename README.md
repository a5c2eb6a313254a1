# Sudoku library core, modelled in Dafny

This project models the core of a C# Sudoku library (`SudokuLib/Model`). It covers:

- **Symbol table.** The glyphs shown for codes 1..N, with code 0 for the empty cell. It is built from a size or from the glyph line of a puzzle file, and it converts glyphs to codes and back.
- **Grid size.** The `GridSize` record of box rows and box columns, with its checked setters, its text form and its parser.
- **Combinations.** A stack-driven enumerator of the strictly increasing k-of-n index choices, and `GenerateCombinations`, which returns the in-order picks of each length that hold a given object.
- **Cells and puzzles.** Cells carry:
  - a code;
  - the given (`startPoint`) and `algorithmEntered` flags;
  - the candidate list computed from their row, column and box peers;
  - the solver's working list (`updatedPossiblesValues`).

  The puzzle class holds the grid. It builds the grid from a matrix, blank or as a clone, recomputes or strikes candidates across the peers of a cell, marks givens and exports the codes as a matrix. The text format of a saved puzzle is modelled too: the cell tokens of a row line and the sub-grid header. So are the file validation and the completeness check.
- **Six deduction algorithms.** These are Naked Single, Hidden Single, Naked Candidates, Hidden Candidates, Pointing Pairs/Triples and Box Line Reduction. Each `Search` on an open cell is a method on the puzzle, proved equal to a specification function. The function states what the search enters or narrows, what it returns (`true`, `null` or `false`) and the report it leaves for `ToString`.
- **Brute force.** A recursive backtracking search over an `int[,]` that counts up to two solutions. It is proved sound and exhaustive against the definition of a solution. From a fresh search on a grid with an empty cell, it counts one solution exactly when the grid has a unique completion; a full grid counts none.
- **Solver.** The solver's `SolvePuzzle` runs in four stages:
  1. a first loop that empties the open cells;
  2. passes of the algorithms in a fixed order, up to 100;
  3. a commit of the working lists after each pass;
  4. a brute-force fallback.

  Its contract ties the puzzle and the trail of messages to a specification, and theorems state what a solve keeps and achieves. `ProvideHints` fills randomly chosen empty cells from the solved puzzle.
- **Generator.** The fill phase sows random candidates and probes with the brute force once more than N·N/(N/2) cells are filled. The reduction phase clears random clues while exactly one solution remains, restarts up to ten times and keeps the lowest single-solution matrix.

The source's randomness (`RNG.RANDOM.Next`) is a nondeterministic choice (`:|`). The generator's one-second `Task.Wait` timeout is a nondeterministic boolean. Exceptions are `Err` results. A cell is identified by its position, and a grid is a sequence of rows of cell values held in a field of the `Puzzle` class, so the cells' peer lists (`m_CellRow`, `m_CellColumn`, `m_CellSubGrid`) become functions of the grid.

Some behaviour of the source is modelled as written:

- `ValidateFile` and `IsComplete` look only at the top-left box, R·C times, because `(i / R) * R` is 0 for every i < R.
- `SetSymbols(char[])` replaces the table before it finds a repeated glyph.
- `GridSize.Parse` ignores parts after the second `x`.
- Hidden Candidates reports progress when a hidden set is found even if no list got shorter.
- `SaveFile` writes the sub-grid header as "R x C", which the loader's 3-character test rejects (see Findings).

## Model

| member | source | states |
|---|---|---|
| Symbols.SymbolTable.SetSymbolsBySize | SudokuLib/Model/Symbol.cs:20-31 | sizes 0..35 give the blank glyph then the first `size` glyphs of the full set; -1 leaves an empty table and below -1 the table is untouched, both errors; beyond the set the table is already replaced, padded with unset slots, and an error |
| Symbols.SymbolTable.SetSymbolsFrom | SudokuLib/Model/Symbol.cs:37-61 | a `'0'` or a space is rejected before the table changes; otherwise the table is the blank glyph then the glyphs, or the partly filled table and an error at the first repeated glyph |
| Symbols.SetSymbolsFromSucceeds | SudokuLib/Model/Symbol.cs:37-61 | with no `'0'` or space present, building from glyphs succeeds exactly when they are pairwise distinct and hold no unset marker |
| Symbols.FirstRejectedNone | SudokuLib/Model/Symbol.cs:49-59 | the duplicate scan accepts a glyph exactly when it is not an earlier glyph |
| Symbols.SetTablesValid | SudokuLib/Model/Symbol.cs:20-61 | both setters leave a valid table (blank first, no repeats) when they succeed |
| Symbols.IncreasingTableValid | SudokuLib/Model/Symbol.cs:20-31 | glyphs in strictly increasing order above `'0'` make a valid table |
| Symbols.DefaultTableValid | SudokuLib/Model/Symbol.cs:20-31 | the blank glyph followed by a prefix of the full glyph set is a valid table |
| Symbols.ConvertCharToInt | SudokuLib/Model/Symbol.cs:104-118 | the code is the first slot holding the glyph, `'0'` read as the blank; an unknown glyph is an error |
| Symbols.IntToCharList | SudokuLib/Model/Symbol.cs:70-80 | every code maps to its glyph; an out-of-range code is an error |
| Symbols.CharToIntList | SudokuLib/Model/Symbol.cs:87-97 | every glyph maps to its code; an unknown glyph is the lookup's error |
| Symbols.CurrentSymbolsIntList | SudokuLib/Model/Symbol.cs:122-135 | the list 0..length-1 of the table's slots |
| Symbols.CodeRoundTrip | SudokuLib/Model/Symbol.cs:70-118 | on a valid table, looking up the glyph of a code gives the code back |
| Symbols.ListsRoundTrip | SudokuLib/Model/Symbol.cs:70-97 | on a valid table the two list converters undo each other |
| GridSizes.GridSize.SetRowCount | SudokuLib/Model/GridSize.cs:28-42 | a value above 1 is stored; otherwise an error and the field is unchanged |
| GridSizes.GridSize.SetColumnCount | SudokuLib/Model/GridSize.cs:44-58 | a value above 1 is stored; otherwise an error and the field is unchanged |
| GridSizes.TrySize | SudokuLib/Model/GridSize.cs:67-75 | a part reads as a size exactly when it is a 32-bit integer greater than 1 |
| GridSizes.Parse | SudokuLib/Model/GridSize.cs:82-98 | a parsed size has both counts above 1 |
| GridSizes.ParseSizeText | SudokuLib/Model/GridSize.cs:62-98 | parsing the text `ToString` writes gives the size back |
| GridSizes.TrySizeLeft | SudokuLib/Model/GridSize.cs:67-75 | the rows part of a size text, with its trailing space, reads back as the row count |
| GridSizes.TrySizeRight | SudokuLib/Model/GridSize.cs:67-75 | the columns part of a size text, with its leading space, reads back as the column count |
| GridSizes.SizeTextLength | SudokuLib/Model/GridSize.cs:62-65 | the text of a size above 1 x 1 is never 3 characters long |
| Numerals.FormatThenParse | SudokuLib/Model/GridSize.cs:69 | `int.TryParse` of a formatted 32-bit integer with white space around it gives the integer back |
| Numerals.FormatParsesBack | SudokuLib/Model/GridSize.cs:69 | the trimmed text of a formatted 32-bit integer parses back to it |
| Numerals.ParsesBack | SudokuLib/Model/Puzzle.cs:289 | a non-negative number's text parses back to it |
| Combinations.CurrentCombinationMapping | SudokuLib/Model/Combinations.cs:19-48 | for k >= 1 the stack machine yields exactly `Combos(k, n)`, the strictly increasing k-of-n index choices in lexicographic order; k = 0 yields nothing when n = 0 and is an out-of-range error otherwise; a negative k is an error |
| Combinations.FillMapping | SudokuLib/Model/Combinations.cs:34-46 | the inner loop fills the mapping from the current position with consecutive values and yields it when full |
| Combinations.CombosExactly | SudokuLib/Model/Combinations.cs:19-48 | a choice is produced exactly when it is a strictly increasing k-of-n index choice |
| Combinations.CombosOrdered | SudokuLib/Model/Combinations.cs:19-48 | choices come in strictly increasing lexicographic order, so none twice |
| Combinations.CombosEmptyWhenShort | SudokuLib/Model/Combinations.cs:34 | fewer values than places produce nothing |
| Combinations.CombosValid | SudokuLib/Model/Combinations.cs:36 | every choice holds k indices within [0, n) |
| Combinations.TailSound | SudokuLib/Model/Combinations.cs:26-47 | every choice produced from a prefix completes it |
| Combinations.TailComplete | SudokuLib/Model/Combinations.cs:26-47 | every choice completing a prefix is produced |
| Combinations.TailSorted | SudokuLib/Model/Combinations.cs:26-47 | choices from a prefix come in lexicographic order |
| Combinations.GenerateCombinations | SudokuLib/Model/Combinations.cs:61-88 | for each length min..max, the picks at each choice that hold the object, in the enumerator's order; a negative length is an error |
| Combinations.CombinationsOfLength | SudokuLib/Model/Combinations.cs:68-84 | one length: the picks at each choice of that length that hold the object |
| Combinations.CollectContaining | SudokuLib/Model/Combinations.cs:71-84 | the buffer takes the values at each mapping and a copy is kept when it holds the object |
| Combinations.MappingsExactly | SudokuLib/Model/Combinations.cs:71 | the choices walked for a length of at least 1 are exactly the increasing index choices of that length |
| Combinations.SelectionsLengths | SudokuLib/Model/Combinations.cs:65-85 | every returned combination has a length in [min, max] |
| Combinations.SelectionsContent | SudokuLib/Model/Combinations.cs:74-83 | every returned combination holds the object and keeps the order of the values |
| Combinations.SelectionsGrouped | SudokuLib/Model/Combinations.cs:65-85 | combinations come grouped by length, shortest first |
| Combinations.SelectionsComplete | SudokuLib/Model/Combinations.cs:65-85 | every in-order pick of an allowed length that holds the object is returned |
| Cells.BlankCell | SudokuLib/Model/Cell.cs:32-41 | an empty cell at its position, neither given nor entered, with empty lists |
| Cells.Clone | SudokuLib/Model/Cell.cs:66-75 | the copy has the position, code and flags, and empty lists |
| Cells.WithoutZeroMembers | SudokuLib/Model/Cell.cs:197-203 | with 0 at the head of a duplicate-free list, dropping it leaves exactly the non-zero candidates |
| Cells.OpenOfMembers | SudokuLib/Model/Cell.cs:205-257 | the open-cell view keeps exactly the cells of the line that are neither given nor entered |
| Cells.OpenCells | SudokuLib/Model/Cell.cs:205-257 | the `*WithoutStartAndAlgo` loop returns the open cells of the line, in order |
| Relations.ColumnOf | SudokuLib/Model/Puzzle.cs:411-419 | the cells of column c, top to bottom |
| Relations.BoxOf | SudokuLib/Model/Puzzle.cs:426-442 | the R x C cells of the box of (r, c), row by row |
| Relations.BoxCellPlace | SudokuLib/Model/Puzzle.cs:426-442 | the k-th box cell lies in the box of (r, c), at rank k |
| Relations.BoxRankPlace | SudokuLib/Model/Puzzle.cs:426-442 | every cell of the box of (r, c) is the box cell at its rank |
| Relations.LinesArePeers | SudokuLib/Model/Puzzle.cs:390-442 | the row, column and box lists hold exactly the codes of the peers |
| Relations.SetPossibleValues | SudokuLib/Model/Cell.cs:83-120 | a given gets [its code]; another cell starts from 0..N (the active symbol table taken to be the puzzle's own, N+1 slots long) and loses the code of each row, column and box peer in turn, its own code excepted |
| Relations.StrikeRound | SudokuLib/Model/Cell.cs:92-97 | one round strikes the codes of the i-th row, column and box peers |
| Relations.RemovePossiblesEffect | SudokuLib/Model/Cell.cs:108-120 | `RemovePossibles` drops a peer's non-zero code unless it is the cell's own |
| Relations.CandidatesSpec | SudokuLib/Model/Cell.cs:83-120 | the candidate list is ascending with 0 first and holds exactly the codes no peer blocks |
| Relations.CandidatesByPeers | SudokuLib/Model/Cell.cs:83-120 | for a non-given, code v is a candidate exactly when it is 0, the cell's own code, or held by no peer |
| Relations.CandidatesFrame | SudokuLib/Model/Cell.cs:83-120 | candidates depend only on codes and givens |
| Lists.RemoveFirstIsWithout | SudokuLib/Model/Cell.cs:150 | on a duplicate-free list `List.Remove` drops every occurrence |
| Puzzles.MatrixCell | SudokuLib/Model/Puzzle.cs:374 | the cell of code m[i][j], given exactly when the code is not 0, not entered |
| Puzzles.Puzzle.FromMatrix | SudokuLib/Model/Puzzle.cs:29-37 | the cells of the matrix with their candidates computed; the active table becomes the default one for N |
| Puzzles.Puzzle.Blank | SudokuLib/Model/Puzzle.cs:43-51 | blank cells with their candidates; the active table becomes the default one for N |
| Puzzles.Puzzle.Copy | SudokuLib/Model/Puzzle.cs:57-78 | cloned cells with candidates recomputed; the active table becomes the puzzle's glyphs |
| Puzzles.Puzzle.Clone | SudokuLib/Model/Puzzle.cs:589-592 | a fresh puzzle equal to the copy constructor's result |
| Puzzles.Puzzle.SetCellPossibleValues | SudokuLib/Model/Puzzle.cs:250-260 | every cell gets the candidates computed from its peers; nothing else changes |
| Puzzles.Puzzle.RecomputePeers | SudokuLib/Model/Cell.cs:125-133 | every row, column and box peer of (r, c), itself included, gets its candidates recomputed; nothing else changes |
| Puzzles.Puzzle.RecomputeRound | SudokuLib/Model/Cell.cs:127-132 | round i recomputes the i-th cell of the column, row and box |
| Puzzles.Puzzle.Recompute | SudokuLib/Model/Cell.cs:129-131 | one cell gets the candidates computed on any grid with the same codes and givens |
| Puzzles.RecomputedAll | SudokuLib/Model/Cell.cs:125-133 | after all rounds exactly the peers of (r, c) carry recomputed candidates |
| Puzzles.RecomputedPeersOk | SudokuLib/Model/Cell.cs:125-133 | recomputing keeps every list well formed |
| Puzzles.Puzzle.StrikeFromPeers | SudokuLib/Model/Cell.cs:139-158 | v leaves the working list of every open peer other than (r, c); nothing else changes |
| Puzzles.Puzzle.StrikeRound | SudokuLib/Model/Cell.cs:141-156 | round i strikes v at the i-th cell of the column, row and box |
| Puzzles.StrikeCell | SudokuLib/Model/Cell.cs:143-156 | the cell loses v unless it is (r, c) or is not open |
| Puzzles.StruckAllOk | SudokuLib/Model/Cell.cs:139-158 | after the last round every open peer other than (r, c) has lost v, and a non-zero v keeps the lists well formed |
| Puzzles.Puzzle.SetStartPoints | SudokuLib/Model/Puzzle.cs:570-583 | every cell holding a code becomes a given; nothing else changes |
| Puzzles.Puzzle.PuzzleAsArray | SudokuLib/Model/Puzzle.cs:526-542 | a fresh N x N matrix of the codes |
| PuzzleFiles.ParseToken | SudokuLib/Model/Puzzle.cs:270-301 | an optional u/a marker then an integer 0..N; a given is a non-zero unmarked cell; errors for an empty token, a non-number and a value out of range |
| PuzzleFiles.SetRow | SudokuLib/Model/Puzzle.cs:267-305 | one cell per token at its column, or the error of the first token that does not read |
| PuzzleFiles.TokenRoundTrip | SudokuLib/Model/Puzzle.cs:109-137 | reading back a saved token gives the cell as `Cell.Clone` copies it |
| PuzzleFiles.LineRoundTrip | SudokuLib/Model/Puzzle.cs:107-141 | a saved row line splits back into its tokens and each reads back as its cell |
| PuzzleFiles.GetSubGridSize | SudokuLib/Model/Puzzle.cs:191-209 | success exactly when the header is 3 characters, parses as a size and R x C equals N |
| PuzzleFiles.SavedHeaderRejected | SudokuLib/Model/Puzzle.cs:102 | the header `SaveFile` writes is always rejected on reading, being longer than 3 characters |
| PuzzleFiles.HeaderSize | SudokuLib/Model/Puzzle.cs:191-209 | the corrected header reader: success exactly when the text parses as a size with R x C equal to N, any length |
| PuzzleFiles.HeaderRoundTrip | SudokuLib/Model/GridSize.cs:62-65 | the corrected reader reads back the "R x C" header `SaveFile` writes |
| PuzzleFiles.HeaderSizeAgrees | SudokuLib/Model/Puzzle.cs:191-209 | on 3-character headers the corrected reader agrees with `GetSubGridSize` |
| PuzzleFiles.HeaderLoads | SudokuLib/Model/Puzzle.cs:191-209 | one digit, `x`, one digit with the right product is accepted |
| Checks.CheckLineIff | SudokuLib/Model/Puzzle.cs:449-463 | a line passes exactly when no two of its givens and entries share a code |
| Checks.ValidateFile | SudokuLib/Model/Puzzle.cs:215-245 | a failure is the duplicate, size or index error; exactly when it passes is `ValidateFileIff` |
| Checks.ValidateFileIff | SudokuLib/Model/Puzzle.cs:215-245 | a file passes exactly when it has N rows of N cells and no row, column or the top-left box repeats a fixed code |
| Checks.ValidateLinesSquare | SudokuLib/Model/Puzzle.cs:215-230 | when the row and column checks pass, the file has N rows of N cells |
| Checks.LinesOfGrid | SudokuLib/Model/Puzzle.cs:411-442 | on a well-formed grid the column and box views are `GetColumn` and `GetSubGrid` of cell (0, 0) |
| Checks.CompleteLineFull | SudokuLib/Model/Puzzle.cs:470-490 | a line of N cells passing `CheckCompleteLine`, with the active table taken to be the puzzle's own, holds each code 1..N exactly once |
| Checks.CompleteFilled | SudokuLib/Model/Puzzle.cs:498-522 | a complete puzzle has no empty cell and no row or column repeats a code |
| Algorithms.Initial | SudokuLib/Model/Algorithms/Algorithm.cs:17-20 | a new algorithm object has no message and the class's name |
| Algorithms.JoinGlyphs | SudokuLib/Model/Algorithms/Pointers.cs:47-56 | the joined text has 3k-2 characters with the k-th glyph at position 3k |
| Algorithms.ReportPosition | SudokuLib/Model/Algorithms/Algorithm.cs:24-27 | the report text reads back as the 1-based row and column, followed by the message part |
| Algorithms.TailEnding | SudokuLib/Model/Algorithms/Algorithm.cs:24-27 | the message part starts with a space and ends by naming the algorithm |
| Algorithms.PendingOk | SudokuLib/Model/Cell.cs:197-203 | the candidates of a non-given without 0 are exactly its non-zero candidates, no repeats |
| Algorithms.LinesSearchable | SudokuLib/Model/Cell.cs:205-257 | the open column, row and box of a cell hold open grid cells with well-formed lists |
| Algorithms.StrikeAllDrop | SudokuLib/Model/Algorithms/Pointers.cs:104-113 | striking the codes drops each of them and reports a change exactly when the list shrank |
| Algorithms.StrikeValues | SudokuLib/Model/Algorithms/Pointers.cs:104-113 | the per-cell loop of `ValueExistsInLine`: the codes are struck from the working list, change flag included |
| Algorithms.StrikeCellsEffect | SudokuLib/Model/Algorithms/Pointers.cs:98-116 | every targeted cell loses the codes from its working list and nothing else changes |
| Algorithms.StrikeCellsFlag | SudokuLib/Model/Algorithms/Pointers.cs:108-112 | the change flag is set exactly when some target held one of the codes |
| Algorithms.StrikeCellsNarrowing | SudokuLib/Model/Algorithms/Pointers.cs:98-116 | striking only narrows working lists, flag set exactly when one got shorter |
| Algorithms.StrikeCellsIdle | SudokuLib/Model/Algorithms/Pointers.cs:98-116 | a strike reporting no change leaves the grid as it was |
| Algorithms.StruckPeersKeepZero | SudokuLib/Model/Cell.cs:139-158 | striking a non-zero code from the peers keeps the grid well formed and never strikes 0 |
| Algorithms.SurvivorsMembers | SudokuLib/Model/Algorithms/Pointers.cs:123-141 | what survives is exactly the codes no other cell holds |
| Algorithms.SurvivingValues | SudokuLib/Model/Algorithms/Pointers.cs:123-141 | `GetPossibleValuesForLine`: the codes left once every cell outside the excluded list is removed |
| Algorithms.StrikeOthers | SudokuLib/Model/Algorithms/Pointers.cs:98-116 | `ValueExistsInLine`: every cell of the line outside the excluded list has the codes struck |
| Algorithms.StrikeCell | SudokuLib/Model/Algorithms/Pointers.cs:104-113 | one cell's working list has the codes struck |
| Algorithms.SharesMeans | SudokuLib/Model/Algorithms/Pointers.cs:28 | a positive `Intersect` count means a shared candidate |
| Algorithms.Groups | SudokuLib/Model/Algorithms/Pointers.cs:24-37 | the other open box cells sharing a candidate, split into x's row and, failing that, its column |
| Algorithms.BoxGroups | SudokuLib/Model/Algorithms/Pointers.cs:24-37 | the loop over the box yields the two groups |
| Algorithms.ConfinedMembers | SudokuLib/Model/Algorithms/Pointers.cs:123-141 | the confined codes are exactly x's candidates that no other cell holds, none 0 and none repeated |
| Algorithms.GroupCaseNarrows | SudokuLib/Model/Algorithms/Pointers.cs:39-58 | one case only narrows working lists, reports a change exactly when one shrank, and names the confined codes |
| Algorithms.GroupCaseStrikes | SudokuLib/Model/Algorithms/Pointers.cs:39-58 | one case strikes the confined codes from every target outside x and the group, and nothing else |
| Algorithms.RunCase | SudokuLib/Model/Algorithms/Pointers.cs:39-58 | one guarded case of `Search` |
| NakedSingleAlgorithm.Searched | SudokuLib/Model/Algorithms/NakedSingle.cs:13-34 | with exactly one candidate v the cell takes v, v leaves its open peers' working lists, the cell is entered and `true` is returned; otherwise nothing changes |
| NakedSingleAlgorithm.Search | SudokuLib/Model/Algorithms/NakedSingle.cs:13-34 | the method's grid, verdict and report are those of `Searched` |
| HiddenSingleAlgorithm.LineFoundMembers | SudokuLib/Model/Algorithms/HiddenSingle.cs:38-46 | what is left is what no other cell of the line holds |
| HiddenSingleAlgorithm.LineFoundUnique | SudokuLib/Model/Algorithms/HiddenSingle.cs:36-55 | a line search succeeds exactly when one candidate is unique to the cell, and yields it |
| HiddenSingleAlgorithm.SearchLine | SudokuLib/Model/Algorithms/HiddenSingle.cs:36-55 | whether the line leaves exactly one code, and the list the `ref` parameter then holds |
| HiddenSingleAlgorithm.LineVerdict | SudokuLib/Model/Algorithms/HiddenSingle.cs:36-55 | a line yields v exactly when v is unique to x there |
| HiddenSingleAlgorithm.FoundLines | SudokuLib/Model/Algorithms/HiddenSingle.cs:18 | v is found exactly when it is the one candidate left by the column, else the row, else the box |
| HiddenSingleAlgorithm.Searched | SudokuLib/Model/Algorithms/HiddenSingle.cs:13-34 | on a find the working list becomes [0, v], v leaves the open peers' lists and `null` is returned without writing the code; otherwise nothing changes |
| HiddenSingleAlgorithm.PinnedEffect | SudokuLib/Model/Algorithms/HiddenSingle.cs:24-28 | the cell's working list becomes [0, v], every open peer other than the cell loses v, and every other cell is unchanged |
| HiddenSingleAlgorithm.Pin | SudokuLib/Model/Algorithms/HiddenSingle.cs:24-28 | the method leaves the grid `Pinned` describes |
| HiddenSingleAlgorithm.FoundCandidate | SudokuLib/Model/Algorithms/HiddenSingle.cs:18-26 | the code found is a non-zero candidate of the cell |
| HiddenSingleAlgorithm.Search | SudokuLib/Model/Algorithms/HiddenSingle.cs:13-34 | the method's grid, verdict and report are those of `Searched` |
| NakedCandidatesAlgorithm.ScanFacts | SudokuLib/Model/Algorithms/NakedCandidates.cs:41-63 | one size pass collects x and the cells whose candidates keep the union at exactly i codes |
| NakedCandidatesAlgorithm.AcceptedFirst | SudokuLib/Model/Algorithms/NakedCandidates.cs:39-74 | the search settles on the first size that fits, and finds nothing when none does |
| NakedCandidatesAlgorithm.NakedSet | SudokuLib/Model/Algorithms/NakedCandidates.cs:39-76 | a set found with more than one cell is a naked set: x and other cells of the line, as many cells as codes, each cell's candidates within those codes and each code held by one of them |
| NakedCandidatesAlgorithm.LineNarrows | SudokuLib/Model/Algorithms/NakedCandidates.cs:35-108 | one line only narrows working lists, flags a change exactly when one shrank, and names as many cells as codes |
| NakedCandidatesAlgorithm.LineStrikes | SudokuLib/Model/Algorithms/NakedCandidates.cs:91-106 | cells outside the naked set lose its codes; every other cell is unchanged |
| NakedCandidatesAlgorithm.SweptNarrows | SudokuLib/Model/Algorithms/NakedCandidates.cs:22-24 | the three lines together only narrow, flagging exactly when one list shrank |
| NakedCandidatesAlgorithm.Searched | SudokuLib/Model/Algorithms/NakedCandidates.cs:15-33 | with at most N/2 candidates the row, column and box are searched; `null` exactly when a working list shrank |
| NakedCandidatesAlgorithm.SearchLine | SudokuLib/Model/Algorithms/NakedCandidates.cs:35-108 | the method equals the line's specification |
| NakedCandidatesAlgorithm.Search | SudokuLib/Model/Algorithms/NakedCandidates.cs:15-33 | the method's grid, verdict and report are those of `Searched` |
| HiddenCandidatesAlgorithm.Combined | SudokuLib/Model/Algorithms/HiddenCandidates.cs:40-44 | the union of the combination's candidates: every code one of them holds, once |
| HiddenCandidatesAlgorithm.HiddenMembers | SudokuLib/Model/Algorithms/HiddenCandidates.cs:40-55 | what is left is exactly the codes the combination holds and no other cell of the line does |
| HiddenCandidatesAlgorithm.FirstAccepted | SudokuLib/Model/Algorithms/HiddenCandidates.cs:38-63 | the search settles on the first accepted combination |
| HiddenCandidatesAlgorithm.ChoicesWithin | SudokuLib/Model/Algorithms/HiddenCandidates.cs:36 | the combinations are in-order picks of 2 up to the limit cells holding x |
| HiddenCandidatesAlgorithm.HiddenSet | SudokuLib/Model/Algorithms/HiddenCandidates.cs:31-65 | a set found is hidden: as many cells as codes, which are exactly the codes only these cells hold |
| HiddenCandidatesAlgorithm.FoundFirst | SudokuLib/Model/Algorithms/HiddenCandidates.cs:38-63 | the set found is the first accepted combination; nothing is found when none is accepted |
| HiddenCandidatesAlgorithm.HiddenNotZero | SudokuLib/Model/Algorithms/HiddenCandidates.cs:50 | no hidden code is 0 |
| HiddenCandidatesAlgorithm.RestrictMembers | SudokuLib/Model/Algorithms/HiddenCandidates.cs:82-92 | a restricted list keeps exactly the listed codes and 0, is no longer, and keeps a leading 0 |
| HiddenCandidatesAlgorithm.Restricted | SudokuLib/Model/Algorithms/HiddenCandidates.cs:82-92 | the loop over a working list removes every code neither hidden nor 0 |
| HiddenCandidatesAlgorithm.RestrictEffect | SudokuLib/Model/Algorithms/HiddenCandidates.cs:80-93 | every found cell keeps only 0 and the codes; nothing else changes |
| HiddenCandidatesAlgorithm.RestrictNarrows | SudokuLib/Model/Algorithms/HiddenCandidates.cs:80-93 | restricting keeps the grid in shape and only narrows |
| HiddenCandidatesAlgorithm.LineNarrows | SudokuLib/Model/Algorithms/HiddenCandidates.cs:31-97 | one line either applies and writes this algorithm's report, or changes nothing |
| HiddenCandidatesAlgorithm.LineRestricts | SudokuLib/Model/Algorithms/HiddenCandidates.cs:65-96 | the found cells keep only 0 and the hidden codes; every other cell is unchanged |
| HiddenCandidatesAlgorithm.SweptNarrows | SudokuLib/Model/Algorithms/HiddenCandidates.cs:19-21 | the three lines only narrow and report progress exactly when one of them applied |
| HiddenCandidatesAlgorithm.Searched | SudokuLib/Model/Algorithms/HiddenCandidates.cs:15-29 | row, column and box in turn; `null` exactly when one line applied, even with no list shorter |
| HiddenCandidatesAlgorithm.CombinedValues | SudokuLib/Model/Algorithms/HiddenCandidates.cs:40-44 | the union loop equals `Combined` |
| HiddenCandidatesAlgorithm.RestrictFound | SudokuLib/Model/Algorithms/HiddenCandidates.cs:80-93 | the restriction loop equals its specification |
| HiddenCandidatesAlgorithm.FindHidden | SudokuLib/Model/Algorithms/HiddenCandidates.cs:36-63 | the combinations and the loop settle on the first accepted one |
| HiddenCandidatesAlgorithm.Settle | SudokuLib/Model/Algorithms/HiddenCandidates.cs:38-63 | the loop stops at the first accepted combination |
| HiddenCandidatesAlgorithm.SearchLine | SudokuLib/Model/Algorithms/HiddenCandidates.cs:31-97 | the method equals the line's specification |
| HiddenCandidatesAlgorithm.Search | SudokuLib/Model/Algorithms/HiddenCandidates.cs:15-29 | the method's grid, verdict and report are those of `Searched` |
| PointersAlgorithm.CasesNarrow | SudokuLib/Model/Algorithms/Pointers.cs:39-79 | the two cases only narrow, flag exactly when a list shrank, and leave one case's report |
| PointersAlgorithm.Searched | SudokuLib/Model/Algorithms/Pointers.cs:18-87 | only narrows; `null` exactly when a list shrank, reporting the codes pointing along the column or row |
| PointersAlgorithm.SearchedCases | SudokuLib/Model/Algorithms/Pointers.cs:18-87 | `Searched` is `CasesNarrow` on the open lines |
| PointersAlgorithm.ColumnPointing | SudokuLib/Model/Algorithms/Pointers.cs:39-58 | a code confined to the column group is, in the box, a candidate only in x's column |
| PointersAlgorithm.RowPointing | SudokuLib/Model/Algorithms/Pointers.cs:60-79 | a code confined to the row group is, in the box, a candidate only in x's row |
| PointersAlgorithm.Search | SudokuLib/Model/Algorithms/Pointers.cs:18-87 | the method's grid, verdict and report are those of `Searched` |
| BoxLineReductionAlgorithm.CasesNarrow | SudokuLib/Model/Algorithms/BoxLineReduction.cs:37-77 | the two cases only narrow, flag exactly when a list shrank, and leave one case's report |
| BoxLineReductionAlgorithm.Searched | SudokuLib/Model/Algorithms/BoxLineReduction.cs:15-85 | only narrows; `null` exactly when a list shrank, reporting the codes the column or row confines to the box |
| BoxLineReductionAlgorithm.ColumnInBox | SudokuLib/Model/Algorithms/BoxLineReduction.cs:37-56 | a code the column confines to the group is, in x's column, a candidate only inside x's box |
| BoxLineReductionAlgorithm.RowInBox | SudokuLib/Model/Algorithms/BoxLineReduction.cs:58-77 | a code the row confines to the group is, in x's row, a candidate only inside x's box |
| BoxLineReductionAlgorithm.Search | SudokuLib/Model/Algorithms/BoxLineReduction.cs:15-85 | the method's grid, verdict and report are those of `Searched` |
| BruteForceSearch.Allowed | SudokuLib/Model/Algorithms/BruteForce.cs:118-154 | ascending; exactly the codes 1..N no other cell of the row, column or box holds |
| BruteForceSearch.PossibleValues | SudokuLib/Model/Algorithms/BruteForce.cs:118-154 | the scan of column, row, then box returns `Allowed` |
| BruteForceSearch.HeldSplit | SudokuLib/Model/Algorithms/BruteForce.cs:126-151 | the line scan and the box scan together find exactly the codes the peers hold |
| BruteForceSearch.FirstEmpty | SudokuLib/Model/Algorithms/BruteForce.cs:58-69 | the first empty cell in row-major order; none exactly when the grid is full |
| BruteForceSearch.WriteFills | SudokuLib/Model/Algorithms/BruteForce.cs:77 | writing a code into an empty cell leaves fewer empty cells, so the search terminates |
| BruteForceSearch.CompletesUp | SudokuLib/Model/Algorithms/BruteForce.cs:77-78 | a solution after writing a candidate is a solution of the grid |
| BruteForceSearch.CompletesDown | SudokuLib/Model/Algorithms/BruteForce.cs:74-78 | a solution puts a candidate at the empty cell and solves the grid with it written |
| BruteForceSearch.FilledCompletes | SudokuLib/Model/Algorithms/BruteForce.cs:69 | a full grid is its own and only solution |
| BruteForceSearch.SolvedSound | SudokuLib/Model/Algorithms/BruteForce.cs:56-70 | `SolvePuzzle` keeps the record sound: only solutions, no repeats, at most two |
| BruteForceSearch.TriedSound | SudokuLib/Model/Algorithms/BruteForce.cs:72-116 | `TryCell` keeps the record sound and succeeds only on a second solution |
| BruteForceSearch.SolvedExhaustive | SudokuLib/Model/Algorithms/BruteForce.cs:56-70 | every solution is recorded or is the grid reached, unless the search stopped on a second |
| BruteForceSearch.TriedExhaustive | SudokuLib/Model/Algorithms/BruteForce.cs:72-116 | no solution whose code at the cell is a candidate still to try is missed |
| BruteForceSearch.FreshSearch | SudokuLib/Model/Algorithms/BruteForce.cs:41-54 | a fresh search records at most two distinct solutions, none for a full grid, and restores the grid unless it found a second |
| BruteForceSearch.FreshFound | SudokuLib/Model/Algorithms/BruteForce.cs:86-89 | a fresh search that reports success stopped on a second solution |
| BruteForceSearch.FreshNone | SudokuLib/Model/Algorithms/BruteForce.cs:41-54 | with an empty cell, no solution is recorded exactly when there is none |
| BruteForceSearch.FreshUnique | SudokuLib/Model/Algorithms/BruteForce.cs:41-54 | with an empty cell, exactly one is recorded exactly when the completion is unique |
| BruteForceSearch.FreshMany | SudokuLib/Model/Algorithms/BruteForce.cs:41-54 | with an empty cell, two are recorded exactly when there are two different solutions |
| BruteForceSearch.Strike | SudokuLib/Model/Algorithms/BruteForce.cs:130 | `List.Remove` on an ascending list drops just that code |
| BruteForceSearch.ScanDone | SudokuLib/Model/Algorithms/BruteForce.cs:118-154 | the list left by the two scans is the candidate list |
| BruteForceSearch.LinesStep | SudokuLib/Model/Algorithms/BruteForce.cs:126-138 | one more cell of the column and row scan |
| BruteForceSearch.BoxStep | SudokuLib/Model/Algorithms/BruteForce.cs:142-151 | one more cell of the box scan |
| BruteForceSearch.BruteForce.Solve | SudokuLib/Model/Algorithms/BruteForce.cs:41-54 | the array and record are the search's result; `true` exactly when one solution is on record, which for a fresh search of a grid with an empty cell means a unique completion |
| BruteForceSearch.BruteForce.SolveInPlace | SudokuLib/Model/Algorithms/BruteForce.cs:17-39 | searches a copy of the codes; with exactly one solution every cell takes its code and is marked entered; otherwise the puzzle is unchanged |
| BruteForceSearch.BruteForce.Enter | SudokuLib/Model/Algorithms/BruteForce.cs:26-33 | every cell takes the solution's code and is marked entered |
| BruteForceSearch.BruteForce.SolvePuzzle | SudokuLib/Model/Algorithms/BruteForce.cs:56-70 | the array, verdict and record are those of the specification `Solved` |
| BruteForceSearch.BruteForce.FindEmpty | SudokuLib/Model/Algorithms/BruteForce.cs:58-67 | the scan returns `FirstEmpty` |
| BruteForceSearch.BruteForce.TryCell | SudokuLib/Model/Algorithms/BruteForce.cs:72-116 | the array, verdict and record are those of the specification `Tried` over `Allowed` |
| BruteForceSearch.BruteForce.Attempt | SudokuLib/Model/Algorithms/BruteForce.cs:77-90 | one round: stop on a second solution, otherwise the record advances as `Tried` does |
| BruteForceSearch.BruteForce.Contains | SudokuLib/Model/Algorithms/BruteForce.cs:206-217 | `true` exactly when the array's codes are on the list |
| BruteForceSearch.BruteForce.Equals | SudokuLib/Model/Algorithms/BruteForce.cs:219-233 | `true` exactly when the array holds the matrix |
| BruteForceSearch.BruteForce.CopyPuzzle | SudokuLib/Model/Algorithms/BruteForce.cs:235-248 | the copy is the array's codes |
| BruteForceSearch.BruteForce.SolutionAsWritten | SudokuLib/Model/Algorithms/BruteForce.cs:251-259 | as written: a result exactly for indices 0..Count-1; index Count passes the guard and fails in the indexer |
| BruteForceSearch.BruteForce.Solution | SudokuLib/Model/Algorithms/BruteForce.cs:251-259 | corrected: a result exactly for 0..Count-1, the guard's error for every other index |
| BruteForceSearch.GuardMissesCount | SudokuLib/Model/Algorithms/BruteForce.cs:253 | index Count gets the indexer's error as written and the guard's error when corrected |
| Solving.RunSearch | SudokuLib/Model/Solver.cs:136-142 | a fresh instance of the algorithm searches the cell; the result is that algorithm's `Searched` |
| Solving.SearchedFacts | SudokuLib/Model/Solver.cs:136-142 | every algorithm's search is well behaved, and only Naked Single enters a code |
| Solving.NakedSingleOk | SudokuLib/Model/Solver.cs:136-142 | a Naked Single search keeps the grid well formed, changes nothing on `false`, closes the cell when it enters a code, and keeps every other cell's code and flags |
| Solving.HiddenSingleOk | SudokuLib/Model/Solver.cs:136-142 | a Hidden Single search keeps the grid well formed, changes nothing on `false`, and keeps every cell's code and flags |
| Solving.NarrowingOk | SudokuLib/Model/Solver.cs:136-142 | a search that never enters a code and only narrows working lists keeps every cell's code and flags |
| Solving.Logged | SudokuLib/Model/Solver.cs:144-169 | on `true` the line is appended or starts the cell's lines; on `null` it starts them if absent; on `false` nothing is written |
| Solving.Swept | SudokuLib/Model/Solver.cs:133-170 | an algorithm run over the open list keeps the grid and trail invariants |
| Solving.PassedFirst | SudokuLib/Model/Solver.cs:129-177 | a pass ends with the sweep of the first algorithm that finds something; when none does it changes nothing |
| Solving.CommitOk | SudokuLib/Model/Solver.cs:185-189 | committing copies each open cell's working list into its candidates and changes nothing else |
| Solving.RemovedMembers | SudokuLib/Model/Solver.cs:192-196 | removing the entered cells leaves exactly the others, without duplicates |
| Solving.PassInv | SudokuLib/Model/Solver.cs:179-197 | a pass, commit and removal keep the loop invariant; cells off the list keep their codes and flags |
| Solving.AfterFacts | SudokuLib/Model/Solver.cs:124-200 | one pass keeps the invariant, shrinks the open list and grows the trail only at open cells |
| Solving.Deduced | SudokuLib/Model/Solver.cs:124-200 | the loop keeps the invariant and at most 100 passes |
| Solving.DeducedEnd | SudokuLib/Model/Solver.cs:124 | the loop ends with no open cell, 100 passes, or a pass that finds nothing |
| Solving.DeducedKept | SudokuLib/Model/Solver.cs:124-200 | cells not open keep all but their working lists; the open list only shrinks |
| Solving.DeducedTrail | SudokuLib/Model/Solver.cs:124-200 | the trail only grows, only at open cells, and each cell on it has a line |
| Solving.ScannedMembers | SudokuLib/Model/Solver.cs:102-120 | the first loop visits every cell once, in row-major order |
| Solving.OpensMembers | SudokuLib/Model/Solver.cs:108-118 | the list holds exactly the open cells, each once |
| Solving.PreparedFacts | SudokuLib/Model/Solver.cs:106-118 | an open cell holding a code is emptied, its working list starts with 0; other cells keep their lists and flags |
| Solving.InitialisedFacts | SudokuLib/Model/Solver.cs:102-120 | after the first loop the open cells are empty and every cell keeps its flags |
| Solving.Begun | SudokuLib/Model/Solver.cs:99-120 | the state before the `while` loop satisfies the loop invariant with no trail |
| Solving.BegunOk | SudokuLib/Model/Solver.cs:99-120 | the first loop lists exactly the open cells, each empty |
| Solving.GuessesFacts | SudokuLib/Model/Solver.cs:208-218 | each open cell gets exactly one brute-force line naming its code in the solution; others are unchanged |
| Solving.Written | SudokuLib/Model/Algorithms/BruteForce.cs:26-33 | every cell takes the solution's code and is marked entered |
| Solving.BruteForced | SudokuLib/Model/Solver.cs:202-220 | the fallback keeps the grid well formed |
| Solving.BruteForcedKeeps | SudokuLib/Model/Solver.cs:202-220 | the fallback keeps every code already in the grid |
| Solving.BruteForcedTrail | SudokuLib/Model/Solver.cs:202-220 | lines are added only for open cells and no cell is left without lines |
| Solving.BruteForcedClosed | SudokuLib/Model/Solver.cs:202-220 | no cell is left open exactly when the completion is unique, which the grid then takes; otherwise the grid is unchanged |
| Solving.SolveStages | SudokuLib/Model/Solver.cs:91-232 | the solve is the first loop, the deduction, the fallback when cells stay open, and `IsComplete` |
| Solving.SolveKeepsGivens | SudokuLib/Model/Solver.cs:91-232 | cells that were not open keep their codes |
| Solving.BegunKeepsGivens | SudokuLib/Model/Solver.cs:102-120 | the first loop keeps the codes of the cells that were not open, which stay closed |
| Solving.DeducedKeepsGivens | SudokuLib/Model/Solver.cs:102-200 | the first loop and the deduction keep the codes of the cells that were not open |
| Solving.InvEmpty | SudokuLib/Model/Solver.cs:106-118 | under the loop invariant every open cell is empty |
| Solving.SolveLeavesEmpty | SudokuLib/Model/Solver.cs:91-232 | a cell the solver leaves open is empty |
| Solving.SolveCompleteClosed | SudokuLib/Model/Solver.cs:225-231 | a complete result has no open cell |
| Solving.SolveFallback | SudokuLib/Model/Solver.cs:202-220 | when deduction leaves open cells, none stays open exactly when the completion is unique, and the result is that completion |
| Solving.SolveTrail | SudokuLib/Model/Solver.cs:91-232 | only cells that were open get trail lines, each at least one |
| Solving.PrepareCell | SudokuLib/Model/Solver.cs:106-118 | one cell of the first loop, and whether it joins the open list |
| Solving.Prepare | SudokuLib/Model/Solver.cs:99-120 | the first loop yields `Begun`'s grid and open list |
| Solving.Sweep | SudokuLib/Model/Solver.cs:133-170 | the `foreach` over the open cells equals `Swept` |
| Solving.Pass | SudokuLib/Model/Solver.cs:129-177 | the `for` over the algorithms equals `Passed` |
| Solving.Commit | SudokuLib/Model/Solver.cs:185-189 | every open cell's candidates become its working list |
| Solving.RemoveEntered | SudokuLib/Model/Solver.cs:192-196 | the open list without the entered cells |
| Solving.Deduce | SudokuLib/Model/Solver.cs:124-200 | the `while` loop equals `Deduced` |
| Solving.Fallback | SudokuLib/Model/Solver.cs:202-220 | the fallback equals `BruteForced` |
| Solving.LogGuesses | SudokuLib/Model/Solver.cs:208-218 | the brute-force lines equal `Guesses` |
| Solving.SolvePuzzle | SudokuLib/Model/Solver.cs:91-232 | the puzzle, trail and verdict are those of the specification `Solve` |
| Solving.BlanksMembers | SudokuLib/Model/Solver.cs:37-46 | the list holds exactly the empty open cells, each once |
| Solving.Hint | SudokuLib/Model/Solver.cs:52-54 | the hinted cell takes the solved cell's code and is marked entered |
| Solving.Lookups | SudokuLib/Model/Solver.cs:56-57 | `TryGetValue` gives a cell's lines, or nothing for a cell without any |
| Solving.Solver.ProvideHints | SudokuLib/Model/Solver.cs:30-80 | hints only empty open cells, each once, at most n; `true` exactly when complete, `false` exactly when incomplete and the count differs from n, each with its message; `null` leaves the message |
| Solving.GiveHints | SudokuLib/Model/Solver.cs:48-61 | the loop ends complete, at n hints, or with every empty open cell hinted |
| Solving.WithoutAtMembers | SudokuLib/Model/Solver.cs:59 | `RemoveAt` leaves exactly the other cells, without duplicates |
| Generation.ThresholdBelow | SudokuLib/Model/Generator.cs:51 | from N = 4 on, the probe threshold is positive and below N·N - 1 |
| Generation.BlankFacts | SudokuLib/Model/Generator.cs:21 | a blank matrix has N·N empty cells and breaks no rule |
| Generation.SowStep | SudokuLib/Model/Generator.cs:37-43 | writing a candidate fills exactly that cell and keeps the matrix within the rules |
| Generation.ClearStep | SudokuLib/Model/Generator.cs:95 | clearing a clue removes exactly that clue |
| Generation.CompletesProper | SudokuLib/Model/Generator.cs:63-67 | a solution of a matrix within the rules is full and within the rules |
| Generation.ClearedCompletes | SudokuLib/Model/Generator.cs:84-111 | a full matrix within the rules solves every matrix made by clearing some of its codes |
| Generation.AcceptedSolution | SudokuLib/Model/Generator.cs:51-67 | the matrix a successful probe leaves behind is extended by a full matrix within the rules |
| Generation.ClearedChain | SudokuLib/Model/Generator.cs:84-111 | clearing codes twice is clearing codes |
| Generation.Blank | SudokuLib/Model/Generator.cs:21 | a fresh N x N matrix of zeros |
| Generation.SowCell | SudokuLib/Model/Generator.cs:28-43 | an empty cell is picked; it takes a candidate exactly when it has one, otherwise nothing changes |
| Generation.ClearClue | SudokuLib/Model/Generator.cs:86-96 | a clue of the matrix is picked and cleared |
| Generation.ReducingStart | SudokuLib/Model/Generator.cs:78-83 | the reduction starts from copies of the accepted matrix with the counter at N·N |
| Generation.ReducingClear | SudokuLib/Model/Generator.cs:95-96 | clearing a clue counts one fewer and brings the round measure down |
| Generation.ReducingRecord | SudokuLib/Model/Generator.cs:102-106 | keeping a single-solution matrix with a counter below the lowest |
| Generation.ReducingRestart | SudokuLib/Model/Generator.cs:118-121 | restarting from the accepted matrix with the counter back at N·N |
| Generation.Generator.Clone | SudokuLib/Model/Generator.cs:131-144 | a fresh N x N matrix of the same codes |
| Generation.Generator.Probe | SudokuLib/Model/Generator.cs:51-74 | accepted exactly when the probe does not time out and counts a solution, leaving the search's grid |
| Generation.Generator.Sow | SudokuLib/Model/Generator.cs:21-75 | on success the seed is within the rules with threshold + 1 codes, and a probe of it counted a solution and left the array |
| Generation.Generator.ProbeCopy | SudokuLib/Model/Generator.cs:98-99 | exactly one solution counted for a copy, the matrix itself untouched |
| Generation.Generator.Trial | SudokuLib/Model/Generator.cs:86-99 | a clue is cleared, then the probe says whether one solution remains |
| Generation.Generator.Descend | SudokuLib/Model/Generator.cs:84-111 | clears and probes until a probe without exactly one solution, keeping the reduction invariant |
| Generation.Generator.Reduce | SudokuLib/Model/Generator.cs:77-126 | the result clears codes of the accepted matrix and is it or has exactly one solution; at most 10 restarts, and the hint target is met unless 10 were made |
| Generation.Generator.GeneratePuzzle | SudokuLib/Model/Generator.cs:16-129 | the puzzle's codes are the reduced matrix and its givens are the non-zero cells; a full matrix within the rules solves it, and it is the accepted matrix or has a unique completion |

## Left out

- File and stream I/O: `Puzzle(string)`/`ReadFile` and `SaveFile` as a whole. Their line-level parts (`SetRow`, the tokens, `GetSubGridSize`, `ValidateFile`) are modelled as pure functions. Splitting a line on `" +"` is assumed done by the caller.
- `INotifyPropertyChanged`, the `coloured` flag, `CellColoursApplied` and `GetHashCode`: UI-only.
- The `Stopwatch`, the timing text of the solver's messages and `completeMessage`: clocks are not modelled.
- `RNG.RANDOM` is a nondeterministic choice, and the one-second `Task.Wait` is a nondeterministic timeout, so no distribution is claimed.
- Generation.Generator.Sow: the source loops until a probe accepts; the model stops after `fuel` rounds and then reports no puzzle.
- Generation.Generator.Reduce: when no clue is left to clear the source spins for ever in its pick loop; the model reports `done == false` there instead, and does not prove that case unreachable.
- Generation.Generator.GeneratePuzzle: requires N >= 4 with R·C = N, because N = 1 divides by zero and N = 2, 3 have no valid fill threshold. The hint counter is not tied to the matrix's clue count, since the source keeps decrementing it across clears.
- Generation.Generator.Clone: requires the matrix to be N x N, which every caller meets.
- NakedSingleAlgorithm.Search, HiddenSingleAlgorithm.Search, NakedCandidatesAlgorithm.Search, HiddenCandidatesAlgorithm.Search, PointersAlgorithm.Search, BoxLineReductionAlgorithm.Search: require the searched cell to be open and the puzzle valid, as the solver guarantees; a search on a given is not modelled.
- Solving.Solver.ProvideHints: requires a well-formed solved grid of the puzzle's shape, where the source would throw on a null or smaller one. On a complete puzzle it writes the completion message with the elapsed seconds taken as a parameter; stopping the `Stopwatch` and rounding its reading are not modelled.
- The solver trail keeps structured entries; the exact `String.Format` text of the brute-force line and the dictionary keys `"r,c"` are not rendered (the algorithm `ToString` text is, in `Algorithms.ReportText`).
- `completedAlgorithmsUsed`, `getAllSolutions` and the plain property getters and setters are not modelled separately.
- GridSizes.Parse: its own contract states only that a success has counts above 1; which texts parse is stated by `ParseSizeText`, `TrySize` and `SizeTextLength`.
- Checks.CompleteLineFull, Checks.CheckCompleteLine, Checks.IsComplete, Relations.Candidates, Relations.SetPossibleValues: the source reads the process-wide symbol table at the moment of the call (`Symbol.currentSymbolsIntList`); the model takes its length to be the puzzle's own N+1, as the constructors set it. A later `SetSymbols` or a puzzle of another size built in between would change the source's range and is not modelled.
- Integer overflow is not modelled beyond the 32-bit parsing of numbers; sizes are small.

## Findings

| source | as written | input that shows it | evidently intended | confidence | as-written member | corrected member |
|---|---|---|---|---|---|---|
| SudokuLib/Model/Puzzle.cs:194 | `GetSubGridSize` accepts only a 3-character header, but `SaveFile` writes `GridSize.ToString()`, "R x C", so a saved puzzle never loads back | any saved file, e.g. a 9x9 puzzle whose header is "3 x 3" | read any header that parses as a size with R x C = N | not executed | PuzzleFiles.SavedHeaderRejected | PuzzleFiles.HeaderSize |
| SudokuLib/Model/Algorithms/BruteForce.cs:253 | `getSolution` guards with `pSolutionNumber > m_Solutions.Count`, so index Count passes the guard and the list indexer throws its own out-of-range error | `getSolution(Count)`, e.g. `getSolution(0)` with no solution recorded | `>=`, so every index outside 0..Count-1 gets the guard's message | not executed | BruteForceSearch.BruteForce.SolutionAsWritten | BruteForceSearch.BruteForce.Solution |
