/// The read-only checks of a puzzle: `CheckLine` and `ValidateFile` (no repeated
/// code among the givens and algorithm entries of a loaded file), and
/// `CheckCompleteLine` and `IsComplete` (every code present).
module Checks {
  import opened Wrappers
  import opened Lists
  import opened Cells
  import opened Relations

  const DuplicateError := "File invalid - Values can not be duplicated"
  const SizeError := "File invalid - The puzzle size must match the length of the symbol set"
  /// What the list indexer throws past the end of a row or of the grid.
  const IndexError := "Index was out of range. Must be non-negative and less than the size of the collection."

  /// A given or an algorithm entry: the cells `CheckLine` looks at.
  predicate Fixed(x: Cell)
  {
    x.startPoint || x.algorithmEntered
  }

  /// The codes of the fixed cells of a line, in order.
  function Used(line: seq<Cell>): seq<int>
  {
    if line == [] then []
    else (if Fixed(line[0]) then [line[0].content] else []) + Used(line[1..])
  }

  /// Some fixed cell of the line holds v.
  predicate HasFixed(line: seq<Cell>, v: int)
  {
    exists i | 0 <= i < |line| :: Fixed(line[i]) && line[i].content == v
  }

  lemma {:induction false} UsedMembers(line: seq<Cell>)
    ensures forall v :: v in Used(line) <==> HasFixed(line, v)
  {
    if line != [] {
      var t := line[1..];
      UsedMembers(t);
      forall v | HasFixed(t, v) ensures HasFixed(line, v) {
        var i :| 0 <= i < |t| && Fixed(t[i]) && t[i].content == v;
        assert line[i + 1] == t[i];
      }
      forall v | HasFixed(line, v) ensures v in Used(line) {
        var i :| 0 <= i < |line| && Fixed(line[i]) && line[i].content == v;
        if i > 0 {
          assert t[i - 1] == line[i];
          assert HasFixed(t, v);
        }
      }
    }
  }

  /// No two fixed cells of the line hold the same code.
  predicate NoRepeatedFixed(line: seq<Cell>)
  {
    forall i, j | 0 <= i < j < |line| && Fixed(line[i]) && Fixed(line[j]) :: line[i].content != line[j].content
  }

  lemma NoRepeatedCons(line: seq<Cell>)
    requires line != []
    ensures NoRepeatedFixed(line) <==>
      NoRepeatedFixed(line[1..]) &&
      (Fixed(line[0]) ==> forall j | 1 <= j < |line| && Fixed(line[j]) :: line[j].content != line[0].content)
  {
    var t := line[1..];
    if NoRepeatedFixed(line) {
      forall i, j | 0 <= i < j < |t| && Fixed(t[i]) && Fixed(t[j]) ensures t[i].content != t[j].content {
        assert t[i] == line[i + 1] && t[j] == line[j + 1];
      }
    }
  }

  lemma {:induction false} UsedNoDups(line: seq<Cell>)
    ensures NoDups(Used(line)) <==> NoRepeatedFixed(line)
  {
    if line != [] {
      var t := line[1..];
      UsedNoDups(t);
      UsedMembers(t);
      NoRepeatedCons(line);
      if Fixed(line[0]) {
        assert Used(line) == [line[0].content] + Used(t);
        NoDupsCons(Used(line));
        assert Used(line)[0] == line[0].content && Used(line)[1..] == Used(t);
        if line[0].content in Used(t) {
          var i :| 0 <= i < |t| && Fixed(t[i]) && t[i].content == line[0].content;
          assert line[i + 1] == t[i];
        } else {
          forall j | 1 <= j < |line| && Fixed(line[j]) ensures line[j].content != line[0].content {
            assert t[j - 1] == line[j];
            assert HasFixed(t, line[j].content);
          }
        }
      } else {
        assert Used(line) == Used(t);
      }
    }
  }

  /// `CheckLine`: the codes of the fixed cells are as many as their distinct
  /// codes (LINQ `Distinct().Count()`).
  function CheckLine(line: seq<Cell>): bool
  {
    |Used(line)| == |Except(Used(line), [])|
  }

  /// A line passes exactly when no two of its givens and algorithm entries hold
  /// the same code; cells entered by the user are ignored.
  lemma CheckLineIff(line: seq<Cell>)
    ensures CheckLine(line) <==> NoRepeatedFixed(line)
  {
    DistinctCount(Used(line));
    UsedNoDups(line);
  }

  /// The cells of column c of the first n rows (`GetColumn`).
  function Column(rows: seq<seq<Cell>>, n: int, c: int): (line: seq<Cell>)
    requires ColumnReadable(rows, n, c)
    ensures |line| == n && forall k | 0 <= k < n :: line[k] == rows[k][c]
  {
    seq(n, k requires 0 <= k < n => rows[k][c])
  }

  predicate ColumnReadable(rows: seq<seq<Cell>>, n: int, c: int)
  {
    0 <= n <= |rows| && 0 <= c && forall k | 0 <= k < n :: c < |rows[k]|
  }

  /// The loop of `ValidateFile` from line i on: row i, then column i, must not
  /// repeat a fixed code, and row i must have n cells. Reading past the end of
  /// the grid or of a row throws.
  function ValidateLines(rows: seq<seq<Cell>>, n: int, i: nat): (o: Outcome)
    ensures o.Fail? ==> o.error == DuplicateError || o.error == SizeError || o.error == IndexError
    decreases n - i
  {
    if i >= n then Pass
    else if i >= |rows| then Fail(IndexError)
    else if !CheckLine(rows[i]) then Fail(DuplicateError)
    else if !ColumnReadable(rows, n, i) then Fail(IndexError)
    else if !CheckLine(Column(rows, n, i)) then Fail(DuplicateError)
    else if |rows[i]| != n then Fail(SizeError)
    else ValidateLines(rows, n, i + 1)
  }

  /// n rows of n cells (extra rows beyond the n-th are never looked at).
  predicate Square(rows: seq<seq<Cell>>, n: int)
  {
    0 <= n <= |rows| && forall i | 0 <= i < n :: |rows[i]| == n
  }

  lemma {:induction false} ValidateLinesPass(rows: seq<seq<Cell>>, n: int, i: nat)
    requires i <= n <= |rows| && forall k | 0 <= k < i :: |rows[k]| == n
    ensures ValidateLines(rows, n, i) == Pass <==>
      (forall k | i <= k < n :: |rows[k]| == n) &&
      forall k | i <= k < n :: CheckLine(rows[k]) && CheckLine(Column(rows, n, k))
    decreases n - i
  {
    if i < n {
      if |rows[i]| == n {
        ValidateLinesPass(rows, n, i + 1);
      }
    }
  }

  lemma {:induction false} ValidateLinesShort(rows: seq<seq<Cell>>, n: int, i: nat)
    requires i <= |rows| < n
    ensures ValidateLines(rows, n, i).Fail?
    decreases n - i
  {
    if i < |rows| {
      ValidateLinesShort(rows, n, i + 1);
    }
  }

  lemma ValidateLinesSquare(rows: seq<seq<Cell>>, n: int)
    requires ValidateLines(rows, n, 0) == Pass && n >= 0
    ensures Square(rows, n)
  {
    if |rows| < n {
      ValidateLinesShort(rows, n, 0);
    } else {
      ValidateLinesPass(rows, n, 0);
    }
  }

  /// The cells of the top-left box in row-major order: the only box `ValidateFile`
  /// and `IsComplete` look at, since `(i / R) * R` and `(j / C) * C` are 0 for
  /// every i < R and j < C.
  function TopLeftBox(sh: Shape, rows: seq<seq<Cell>>): (line: seq<Cell>)
    requires sh.Valid() && Square(rows, sh.size)
    ensures |line| == sh.size
    ensures forall k | 0 <= k < sh.size :: line[k] == TopLeftCell(sh, rows, k)
  {
    seq(sh.size, k requires 0 <= k < sh.size => TopLeftCell(sh, rows, k))
  }

  /// Cell k of the top-left box.
  function TopLeftCell(sh: Shape, rows: seq<seq<Cell>>, k: int): (x: Cell)
    requires sh.Valid() && Square(rows, sh.size) && 0 <= k < sh.size
    ensures x == rows[k / sh.boxColumns][k % sh.boxColumns]
  {
    SidesBounded(sh);
    BoxOffsets(sh, k);
    var i, j := k / sh.boxColumns, k % sh.boxColumns;
    assert 0 <= i < sh.size && 0 <= j < sh.size;
    rows[i][j]
  }

  lemma SidesBounded(sh: Shape)
    requires sh.Valid()
    ensures sh.boxRows <= sh.size && sh.boxColumns <= sh.size
  {
    MulMono(1, sh.boxColumns, sh.boxRows);
    MulMono(1, sh.boxRows, sh.boxColumns);
  }

  /// `ValidateFile`: every row and column, then the top-left box R x C times.
  function ValidateFile(sh: Shape, rows: seq<seq<Cell>>): (o: Outcome)
    requires sh.Valid()
    ensures o.Fail? ==> o.error == DuplicateError || o.error == SizeError || o.error == IndexError
  {
    match ValidateLines(rows, sh.size, 0)
    case Fail(e) => Fail(e)
    case Pass =>
      ValidateLinesSquare(rows, sh.size);
      if CheckLine(TopLeftBox(sh, rows)) then Pass else Fail(DuplicateError)
  }

  /// A file passes exactly when it has N rows of N cells and no row, no column
  /// and the top-left box repeats a fixed code.
  lemma ValidateFileIff(sh: Shape, rows: seq<seq<Cell>>)
    requires sh.Valid()
    ensures ValidateFile(sh, rows) == Pass <==>
      Square(rows, sh.size) &&
      (forall i | 0 <= i < sh.size :: NoRepeatedFixed(rows[i]) && NoRepeatedFixed(Column(rows, sh.size, i))) &&
      NoRepeatedFixed(TopLeftBox(sh, rows))
  {
    var n := sh.size;
    if |rows| < n {
      ValidateLinesShort(rows, n, 0);
    } else {
      ValidateLinesPass(rows, n, 0);
      if Square(rows, n) {
        forall i | 0 <= i < n ensures CheckLine(rows[i]) == NoRepeatedFixed(rows[i]) {
          CheckLineIff(rows[i]);
        }
        forall i | 0 <= i < n ensures CheckLine(Column(rows, n, i)) == NoRepeatedFixed(Column(rows, n, i)) {
          CheckLineIff(Column(rows, n, i));
        }
        CheckLineIff(TopLeftBox(sh, rows));
      }
    }
  }

  /// On a grid whose cells know their place, `Column` is `GetColumn` and the
  /// top-left box is `GetSubGrid` of cell (0, 0).
  lemma LinesOfGrid(sh: Shape, g: Grid)
    requires WellFormed(sh, g) && sh.size >= 1
    ensures Square(g, sh.size)
    ensures forall c | 0 <= c < sh.size :: Column(g, sh.size, c) == ColumnOf(sh, g, c)
    ensures TopLeftBox(sh, g) == BoxOf(sh, g, 0, 0)
  {
    BoxTopBounds(sh, 0);
    BoxLeftBounds(sh, 0);
    forall k | 0 <= k < sh.size ensures TopLeftBox(sh, g)[k] == BoxOf(sh, g, 0, 0)[k] {
      BoxOffsets(sh, k);
    }
  }

  /// `CheckCompleteLine`: every code 1..n appears in the line. The source runs
  /// up to the active symbol table's length, assumed to be the puzzle's own n+1.
  function CheckCompleteLine(line: seq<Cell>, n: int): bool
  {
    forall v | 1 <= v <= n :: v in Contents(line)
  }

  /// `IsComplete`: every row and every column, and the top-left box, hold every
  /// code. No other box is examined.
  function IsComplete(sh: Shape, g: Grid): bool
    requires WellFormed(sh, g)
  {
    (forall i | 0 <= i < sh.size :: CheckCompleteLine(RowOf(sh, g, i), sh.size) && CheckCompleteLine(ColumnOf(sh, g, i), sh.size)) &&
    (sh.size >= 1 ==> CheckCompleteLine(BoxOf(sh, g, 0, 0), sh.size))
  }

  /// A line of n cells that holds every code 1..n holds each exactly once and
  /// nothing else, 0 included.
  lemma CompleteLineFull(line: seq<Cell>, n: int)
    requires |line| == n && CheckCompleteLine(line, n)
    ensures forall k | 0 <= k < n :: 1 <= line[k].content <= n
    ensures NoDups(Contents(line))
  {
    var s := Contents(line);
    FullRange(s, 1);
    forall k | 0 <= k < n ensures 1 <= line[k].content <= n {
      assert s[k] in s;
    }
  }

  /// A complete puzzle has no empty cell, and no row or column repeats a code.
  lemma CompleteFilled(sh: Shape, g: Grid)
    requires WellFormed(sh, g) && IsComplete(sh, g)
    ensures forall i, j | InGrid(sh, i, j) :: 1 <= g[i][j].content <= sh.size
    ensures forall i | 0 <= i < sh.size :: NoDups(Contents(RowOf(sh, g, i))) && NoDups(Contents(ColumnOf(sh, g, i)))
  {
    forall i | 0 <= i < sh.size
      ensures forall j | 0 <= j < sh.size :: 1 <= g[i][j].content <= sh.size
      ensures NoDups(Contents(RowOf(sh, g, i))) && NoDups(Contents(ColumnOf(sh, g, i)))
    {
      CompleteLineFull(RowOf(sh, g, i), sh.size);
      CompleteLineFull(ColumnOf(sh, g, i), sh.size);
    }
  }
}
