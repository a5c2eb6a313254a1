/// The puzzle: an N x N grid of cells with its box dimensions and its own
/// symbol set, and the operations that fill and update the grid in place.
module Puzzles {
  import opened Lists
  import opened Cells
  import opened Relations
  import Symbols

  /// What the candidate lists of every reachable cell satisfy: a candidate list is
  /// never empty and, for a cell that is not a given, starts with code 0; no list
  /// repeats a code; a working list that has been set starts with code 0 too.
  predicate ListsOk(c: Cell)
  {
    |c.possibleValues| >= 1 && NoDups(c.possibleValues) && NoDups(c.updated) &&
    (!c.startPoint ==> c.possibleValues[0] == 0 && (c.updated == [] || c.updated[0] == 0))
  }

  predicate GridOk(sh: Shape, g: Grid)
  {
    WellFormed(sh, g) &&
    forall i, j | 0 <= i < sh.size && 0 <= j < sh.size :: ListsOk(g[i][j])
  }

  /// The glyphs of a puzzle form a table `Symbol.SetSymbols` accepts.
  predicate SymbolsOk(sh: Shape, symbols: string)
  {
    |symbols| == sh.size && '0' !in symbols && Symbols.Blank !in symbols &&
    Symbols.Unset !in symbols && Symbols.Distinct(symbols)
  }

  /// Two N x N grids with the same cells are equal.
  lemma GridExt(sh: Shape, a: Grid, b: Grid)
    requires WellFormed(sh, a) && |b| == sh.size
    requires forall i | 0 <= i < sh.size :: |b[i]| == sh.size
    requires forall i, j | 0 <= i < sh.size && 0 <= j < sh.size :: a[i][j] == b[i][j]
    ensures a == b
  {
    forall i | 0 <= i < sh.size ensures a[i] == b[i] {
      assert forall j | 0 <= j < sh.size :: a[i][j] == b[i][j];
    }
  }

  /// A cell whose candidate list has just been computed satisfies `ListsOk`,
  /// provided its working list does.
  lemma CandidatesOk(sh: Shape, g: Grid, r: int, c: int, x: Cell)
    requires WellFormed(sh, g) && InGrid(sh, r, c)
    requires x.startPoint == g[r][c].startPoint
    requires x.possibleValues == Candidates(sh, g, r, c)
    requires NoDups(x.updated) && (x.updated == [] || x.updated[0] == 0)
    ensures ListsOk(x)
  {
    CandidatesSpec(sh, g, r, c);
  }

  /// The cells of a matrix: code m[i][j], a given exactly when the code is not 0,
  /// never algorithm-entered, with empty candidate lists.
  function MatrixCell(code: int, i: int, j: int): (x: Cell)
    ensures x.content == code && x.row == i && x.column == j
    ensures x.startPoint <==> code != 0
    ensures !x.algorithmEntered && x.possibleValues == [] && x.updated == []
  {
    Cell(code, code != 0, false, i, j, [], [])
  }

  /// The cell at (a, b) with its candidates computed from its peers in g.
  function Recomputed(sh: Shape, g: Grid, a: int, b: int): (x: Cell)
    requires WellFormed(sh, g) && InGrid(sh, a, b)
    ensures x == g[a][b].(possibleValues := x.possibleValues)
    ensures x.possibleValues == Candidates(sh, g, a, b)
  {
    g[a][b].(possibleValues := Candidates(sh, g, a, b))
  }

  /// The grid with the cell at (a, b) replaced by x.
  function Put(sh: Shape, g: Grid, a: int, b: int, x: Cell): (h: Grid)
    requires WellFormed(sh, g) && InGrid(sh, a, b) && x.row == a && x.column == b
    ensures WellFormed(sh, h)
    ensures forall i, j | InGrid(sh, i, j) :: h[i][j] == if i == a && j == b then x else g[i][j]
  {
    g[a := g[a][b := x]]
  }

  /// A cell holding a code becomes a given.
  /// Writing a cell in shape keeps the grid in shape.
  lemma PutKeepsOk(sh: Shape, g: Grid, a: int, b: int, x: Cell)
    requires GridOk(sh, g) && InGrid(sh, a, b) && x.row == a && x.column == b && ListsOk(x)
    ensures GridOk(sh, Put(sh, g, a, b, x))
  {
    var h := Put(sh, g, a, b, x);
    forall i, j | InGrid(sh, i, j) ensures ListsOk(h[i][j]) {
      assert ListsOk(g[i][j]);
    }
  }

  function Started(x: Cell): (y: Cell)
    ensures y.startPoint <==> x.startPoint || x.content != 0
    ensures y == x.(startPoint := y.startPoint)
  {
    x.(startPoint := x.startPoint || x.content != 0)
  }

  /// Whether `UpdateAllPossibles(v)` of the cell at (r, c) touches the peer x:
  /// not the cell itself, and an open cell.
  predicate Stricken(r: int, c: int, x: Cell)
  {
    (x.row != r || x.column != c) && Open(x)
  }

  /// The working list struck of code v.
  function Struck(x: Cell, v: int): (y: Cell)
    ensures y.updated == Without(x.updated, v)
    ensures y == x.(updated := y.updated)
  {
    x.(updated := Without(x.updated, v))
  }

  lemma StruckOk(x: Cell, v: int)
    requires ListsOk(x) && v != 0
    ensures ListsOk(Struck(x, v))
  {
    WithoutNoDups(x.updated, v);
    if x.updated != [] && x.updated[0] == 0 {
      WithoutHead(x.updated, v);
    }
  }

  /// The grid after `UpdateAllPossibles(v)` of the cell at (r, c).
  function StruckPeers(sh: Shape, g: Grid, r: int, c: int, v: int): (h: Grid)
    requires WellFormed(sh, g)
    ensures WellFormed(sh, h)
    ensures forall a, b | InGrid(sh, a, b) ::
      h[a][b] == if Peer(sh, r, c, a, b) && Stricken(r, c, g[a][b]) then Struck(g[a][b], v) else g[a][b]
  {
    seq(sh.size, a requires 0 <= a < sh.size =>
      seq(sh.size, b requires 0 <= b < sh.size =>
        if Peer(sh, r, c, a, b) && Stricken(r, c, g[a][b]) then Struck(g[a][b], v) else g[a][b]))
  }

  /// The grid after `UpdateAllPossibles()` of the cell at (r, c): every peer,
  /// the cell itself included, gets its candidate list recomputed.
  function RecomputedPeers(sh: Shape, g: Grid, r: int, c: int): (h: Grid)
    requires WellFormed(sh, g) && InGrid(sh, r, c)
    ensures WellFormed(sh, h)
    ensures forall a, b | InGrid(sh, a, b) ::
      h[a][b] == if Peer(sh, r, c, a, b) then Recomputed(sh, g, a, b) else g[a][b]
  {
    seq(sh.size, a requires 0 <= a < sh.size =>
      seq(sh.size, b requires 0 <= b < sh.size =>
        if Peer(sh, r, c, a, b) then Recomputed(sh, g, a, b) else g[a][b]))
  }

  /// Recomputing candidates keeps the lists well formed.
  lemma RecomputedPeersOk(sh: Shape, g: Grid, r: int, c: int)
    requires GridOk(sh, g) && InGrid(sh, r, c)
    ensures GridOk(sh, RecomputedPeers(sh, g, r, c))
  {
    var h := RecomputedPeers(sh, g, r, c);
    forall a, b | InGrid(sh, a, b) ensures ListsOk(h[a][b]) {
      assert ListsOk(g[a][b]);
      if Peer(sh, r, c, a, b) {
        CandidatesSpec(sh, g, a, b);
      }
    }
  }

  /// Rows visited after i rounds of the loops of both `UpdateAllPossibles`
  /// overloads: the first i cells of the column, of the row and of the box.
  predicate Visited(sh: Shape, r: int, c: int, i: int, a: int, b: int)
    requires sh.Valid()
  {
    (b == c && a < i) || (a == r && b < i) || (SameBox(sh, r, c, a, b) && BoxRank(sh, a, b) < i)
  }

  lemma VisitedAll(sh: Shape, g: Grid, r: int, c: int, a: int, b: int)
    requires WellFormed(sh, g) && InGrid(sh, r, c) && InGrid(sh, a, b)
    ensures Visited(sh, r, c, sh.size, a, b) <==> Peer(sh, r, c, a, b)
  {
    if SameBox(sh, r, c, a, b) {
      BoxRankPlace(sh, g, r, c, a, b);
    }
  }

  /// After i rounds of `UpdateAllPossibles()`: the visited cells carry the
  /// candidates computed on the grid g0 the loop started from.
  ghost predicate RecomputedUpTo(sh: Shape, g0: Grid, g: Grid, r: int, c: int, i: int)
  {
    SameBoard(sh, g, g0) &&
    forall a, b | InGrid(sh, a, b) ::
      g[a][b] == if Visited(sh, r, c, i, a, b) then Recomputed(sh, g0, a, b) else g0[a][b]
  }

  /// Before the first round of either loop no cell has been visited.
  lemma NoneVisited(sh: Shape, r: int, c: int, a: int, b: int)
    requires sh.Valid() && InGrid(sh, a, b)
    ensures !Visited(sh, r, c, 0, a, b)
  {
    BoxTopBounds(sh, a);
    BoxLeftBounds(sh, b);
    MulMono(0, a - BoxTop(sh, a), sh.boxColumns);
  }

  /// Before the first round of `UpdateAllPossibles(v)` nothing is struck.
  lemma StruckStart(sh: Shape, g: Grid, r: int, c: int, v: int)
    requires WellFormed(sh, g)
    ensures StruckUpTo(sh, g, g, r, c, v, 0)
  {
    forall a, b | InGrid(sh, a, b) ensures !Visited(sh, r, c, 0, a, b) {
      NoneVisited(sh, r, c, a, b);
    }
  }

  /// Before the first round of `UpdateAllPossibles()` nothing is recomputed.
  lemma RecomputedStart(sh: Shape, g: Grid, r: int, c: int)
    requires WellFormed(sh, g)
    ensures RecomputedUpTo(sh, g, g, r, c, 0)
  {
    forall a, b | InGrid(sh, a, b) ensures !Visited(sh, r, c, 0, a, b) {
      NoneVisited(sh, r, c, a, b);
    }
  }

  /// After all rounds of `UpdateAllPossibles()`, exactly the peers of (r, c)
  /// carry recomputed candidates.
  lemma RecomputedAll(sh: Shape, g0: Grid, g: Grid, r: int, c: int)
    requires WellFormed(sh, g) && InGrid(sh, r, c) && RecomputedUpTo(sh, g0, g, r, c, sh.size)
    ensures forall a, b | InGrid(sh, a, b) ::
      g[a][b] == if Peer(sh, r, c, a, b) then Recomputed(sh, g0, a, b) else g0[a][b]
  {
    forall a, b | InGrid(sh, a, b) ensures Visited(sh, r, c, sh.size, a, b) <==> Peer(sh, r, c, a, b) {
      VisitedAll(sh, g, r, c, a, b);
    }
  }

  /// After i rounds of `UpdateAllPossibles(v)`: the visited open cells other than
  /// (r, c) have lost v.
  ghost predicate StruckUpTo(sh: Shape, g0: Grid, g: Grid, r: int, c: int, v: int, i: int)
  {
    WellFormed(sh, g) && WellFormed(sh, g0) &&
    forall a, b | InGrid(sh, a, b) ::
      g[a][b] == if Visited(sh, r, c, i, a, b) && Stricken(r, c, g0[a][b]) then Struck(g0[a][b], v) else g0[a][b]
  }

  /// One step of `UpdateAllPossibles(v)`: the cell at (a, b) loses v
  /// (`List.Remove`) unless it is the cell at (r, c) itself or is not open.
  function StrikeCell(sh: Shape, g: Grid, r: int, c: int, a: int, b: int, v: int): (h: Grid)
    requires WellFormed(sh, g) && InGrid(sh, a, b)
    ensures WellFormed(sh, h)
    ensures forall x, y | InGrid(sh, x, y) ::
      h[x][y] == if x == a && y == b && Stricken(r, c, g[a][b]) then g[a][b].(updated := RemoveFirst(g[a][b].updated, v)) else g[x][y]
  {
    if Stricken(r, c, g[a][b]) then Put(sh, g, a, b, g[a][b].(updated := RemoveFirst(g[a][b].updated, v))) else g
  }

  /// On a duplicate-free list, `List.Remove` of v strikes v, and striking again
  /// changes nothing.
  lemma RemoveStrikes(x: Cell, v: int)
    requires NoDups(x.updated)
    ensures x.(updated := RemoveFirst(x.updated, v)) == Struck(x, v)
    ensures Struck(x, v).(updated := RemoveFirst(Struck(x, v).updated, v)) == Struck(x, v)
  {
    RemoveFirstIsWithout(x.updated, v);
    WithoutNoDups(x.updated, v);
    RemoveFirstIsWithout(Without(x.updated, v), v);
    WithoutTwice(x.updated, v);
  }

  /// Round i of `UpdateAllPossibles(v)` keeps `StruckUpTo`.
  lemma StrikeRoundOk(sh: Shape, g0: Grid, g: Grid, r: int, c: int, v: int, i: int)
    requires GridOk(sh, g0) && StruckUpTo(sh, g0, g, r, c, v, i)
    requires InGrid(sh, r, c) && 0 <= i < sh.size
    ensures var x := BoxCell(sh, g, r, c, i);
      InGrid(sh, x.row, x.column) &&
      StruckUpTo(sh, g0, StrikeCell(sh, StrikeCell(sh, StrikeCell(sh, g, r, c, i, c, v), r, c, r, i, v), r, c, x.row, x.column, v), r, c, v, i + 1)
  {
    var x := BoxCell(sh, g, r, c, i);
    BoxCellPlace(sh, g, r, c, i);
    var g1 := StrikeCell(sh, g, r, c, i, c, v);
    var g2 := StrikeCell(sh, g1, r, c, r, i, v);
    var g3 := StrikeCell(sh, g2, r, c, x.row, x.column, v);
    forall a, b | InGrid(sh, a, b)
      ensures g3[a][b] == if Visited(sh, r, c, i + 1, a, b) && Stricken(r, c, g0[a][b]) then Struck(g0[a][b], v) else g0[a][b]
    {
      VisitedStep(sh, g, r, c, i, a, b);
      RemoveStrikes(g0[a][b], v);
    }
  }

  /// After the last round every open peer other than (r, c) has lost v; striking
  /// a code other than 0 keeps the candidate lists in shape.
  lemma StruckAllOk(sh: Shape, g0: Grid, g: Grid, r: int, c: int, v: int)
    requires GridOk(sh, g0) && InGrid(sh, r, c) && StruckUpTo(sh, g0, g, r, c, v, sh.size)
    ensures forall a, b | InGrid(sh, a, b) ::
      g[a][b] == if Peer(sh, r, c, a, b) && Stricken(r, c, g0[a][b]) then Struck(g0[a][b], v) else g0[a][b]
    ensures v != 0 ==> GridOk(sh, g)
    ensures g == StruckPeers(sh, g0, r, c, v)
  {
    forall a, b | InGrid(sh, a, b)
      ensures Visited(sh, r, c, sh.size, a, b) <==> Peer(sh, r, c, a, b)
      ensures v != 0 ==> ListsOk(g[a][b])
    {
      VisitedAll(sh, g, r, c, a, b);
      if v != 0 {
        StruckOk(g0[a][b], v);
      }
    }
    GridExt(sh, g, StruckPeers(sh, g0, r, c, v));
  }

  /// Round i of those loops adds the i-th cell of the column, of the row and of
  /// the box.
  lemma VisitedStep(sh: Shape, g: Grid, r: int, c: int, i: int, a: int, b: int)
    requires WellFormed(sh, g) && InGrid(sh, r, c) && InGrid(sh, a, b) && 0 <= i < sh.size
    ensures var x := BoxCell(sh, g, r, c, i);
      Visited(sh, r, c, i + 1, a, b) <==>
      Visited(sh, r, c, i, a, b) || (a == i && b == c) || (a == r && b == i) || (a == x.row && b == x.column)
  {
    BoxCellPlace(sh, g, r, c, i);
    if SameBox(sh, r, c, a, b) && BoxRank(sh, a, b) == i {
      BoxRankPlace(sh, g, r, c, a, b);
    }
  }

  class Puzzle {
    /// N with the box rows R and box columns C (`m_PuzzleSize`, `m_SubGridSize`).
    var shape: Shape
    /// The glyphs of codes 1..N (`m_CurrentSymbolSet`).
    var symbols: string
    /// `m_Rows`.
    var grid: Grid

    predicate Valid()
      reads this
    {
      GridOk(shape, grid) && SymbolsOk(shape, symbols)
    }

    /// `SetCellPossibleValues`: every cell gets the candidate list computed from
    /// its peers; nothing else changes.
    method SetCellPossibleValues()
      requires WellFormed(shape, grid)
      modifies this
      ensures shape == old(shape) && symbols == old(symbols)
      ensures WellFormed(shape, grid)
      ensures forall i, j | InGrid(shape, i, j) :: grid[i][j] == Recomputed(shape, old(grid), i, j)
    {
      var i := 0;
      while i < shape.size
        invariant 0 <= i <= shape.size
        invariant shape == old(shape) && symbols == old(symbols)
        invariant SameBoard(shape, grid, old(grid))
        invariant forall a, b | InGrid(shape, a, b) ::
          grid[a][b] == if a < i then Recomputed(shape, old(grid), a, b) else old(grid)[a][b]
      {
        var j := 0;
        while j < shape.size
          invariant 0 <= j <= shape.size
          invariant shape == old(shape) && symbols == old(symbols)
          invariant SameBoard(shape, grid, old(grid))
          invariant forall a, b | InGrid(shape, a, b) ::
            grid[a][b] == if a < i || (a == i && b < j) then Recomputed(shape, old(grid), a, b) else old(grid)[a][b]
        {
          var pv := SetPossibleValues(shape, grid, i, j);
          CandidatesFrame(shape, grid, old(grid), i, j);
          grid := Put(shape, grid, i, j, grid[i][j].(possibleValues := pv));
          j := j + 1;
        }
        i := i + 1;
      }
    }

    /// `Puzzle(int[,], int, GridSize)`: the cells of the matrix, with their
    /// candidates; the active symbol table becomes the default one for N, and
    /// the puzzle keeps its glyphs.
    constructor FromMatrix(m: array2<int>, sh: Shape, table: Symbols.SymbolTable)
      requires sh.Valid() && sh.size <= |Symbols.Full|
      requires m.Length0 == sh.size && m.Length1 == sh.size
      modifies table
      ensures table.table == [Symbols.Blank] + Symbols.Full[..sh.size]
      ensures shape == sh && symbols == Symbols.Full[..sh.size]
      ensures Valid()
      ensures forall i, j | InGrid(sh, i, j) ::
        grid[i][j] == MatrixCell(m[i, j], i, j).(possibleValues := Candidates(sh, grid, i, j))
    {
      var o := table.SetSymbolsBySize(sh.size);
      shape := sh;
      symbols := table.table[1..];
      var rows: Grid := [];
      for i := 0 to sh.size
        invariant |rows| == i
        invariant forall a | 0 <= a < i :: |rows[a]| == sh.size
        invariant forall a, b | 0 <= a < i && 0 <= b < sh.size :: rows[a][b] == MatrixCell(m[a, b], a, b)
      {
        var row := [];
        for j := 0 to sh.size
          invariant |row| == j
          invariant forall b | 0 <= b < j :: row[b] == MatrixCell(m[i, b], i, b)
        {
          row := row + [MatrixCell(m[i, j], i, j)];
        }
        rows := rows + [row];
      }
      grid := rows;
      new;
      SetCellPossibleValues();
      EstablishValid(rows);
    }

    /// `Puzzle(int, GridSize)`: a blank puzzle for manual entry.
    constructor Blank(sh: Shape, table: Symbols.SymbolTable)
      requires sh.Valid() && sh.size <= |Symbols.Full|
      modifies table
      ensures table.table == [Symbols.Blank] + Symbols.Full[..sh.size]
      ensures shape == sh && symbols == Symbols.Full[..sh.size]
      ensures Valid()
      ensures forall i, j | InGrid(sh, i, j) ::
        grid[i][j] == BlankCell(i, j).(possibleValues := Candidates(sh, grid, i, j))
    {
      var o := table.SetSymbolsBySize(sh.size);
      shape := sh;
      symbols := table.table[1..];
      var rows: Grid := [];
      for i := 0 to sh.size
        invariant |rows| == i
        invariant forall a | 0 <= a < i :: |rows[a]| == sh.size
        invariant forall a, b | 0 <= a < i && 0 <= b < sh.size :: rows[a][b] == BlankCell(a, b)
      {
        var row := [];
        for j := 0 to sh.size
          invariant |row| == j
          invariant forall b | 0 <= b < j :: row[b] == BlankCell(i, b)
        {
          row := row + [BlankCell(i, j)];
        }
        rows := rows + [row];
      }
      grid := rows;
      new;
      SetCellPossibleValues();
      EstablishValid(rows);
    }

    /// After `SetCellPossibleValues` on fresh cells the invariant holds.
    lemma EstablishValid(before: Grid)
      requires WellFormed(shape, before) && WellFormed(shape, grid)
      requires shape.size <= |Symbols.Full| && symbols == Symbols.Full[..shape.size]
      requires forall i, j | InGrid(shape, i, j) :: before[i][j].updated == []
      requires forall i, j | InGrid(shape, i, j) ::
        grid[i][j] == before[i][j].(possibleValues := Candidates(shape, before, i, j))
      ensures Valid()
      ensures forall i, j | InGrid(shape, i, j) ::
        grid[i][j] == before[i][j].(possibleValues := Candidates(shape, grid, i, j))
    {
      assert SameBoard(shape, grid, before);
      forall i, j | InGrid(shape, i, j)
        ensures ListsOk(grid[i][j])
        ensures Candidates(shape, grid, i, j) == Candidates(shape, before, i, j)
      {
        CandidatesOk(shape, before, i, j, grid[i][j]);
        CandidatesFrame(shape, grid, before, i, j);
      }
      DefaultSymbolsOk(shape);
    }

    /// The constructor used by `Clone`: copies of the cells (`Cell.Clone`) with
    /// their candidates recomputed; the active table becomes the puzzle's glyphs.
    constructor Copy(source: Puzzle, table: Symbols.SymbolTable)
      requires source.Valid()
      modifies table
      ensures table.table == [Symbols.Blank] + source.symbols
      ensures shape == source.shape && symbols == source.symbols
      ensures Valid()
      ensures forall i, j | InGrid(shape, i, j) ::
        grid[i][j] == Cells.Clone(source.grid[i][j]).(possibleValues := Candidates(shape, source.grid, i, j))
    {
      shape := source.shape;
      symbols := source.symbols;
      var o := table.SetSymbolsFrom(source.symbols);
      Symbols.SetSymbolsFromSucceeds(source.symbols);
      var rows: Grid := [];
      for i := 0 to source.shape.size
        invariant |rows| == i
        invariant forall a | 0 <= a < i :: |rows[a]| == source.shape.size
        invariant forall a, b | 0 <= a < i && 0 <= b < source.shape.size ::
          rows[a][b] == Cells.Clone(source.grid[a][b])
      {
        var row := [];
        for j := 0 to source.shape.size
          invariant |row| == j
          invariant forall b | 0 <= b < j :: row[b] == Cells.Clone(source.grid[i][b])
        {
          row := row + [Cells.Clone(source.grid[i][j])];
        }
        rows := rows + [row];
      }
      grid := rows;
      new;
      assert SameBoard(shape, grid, source.grid);
      SetCellPossibleValues();
      assert SameBoard(shape, rows, source.grid);
      forall i, j | InGrid(shape, i, j)
        ensures ListsOk(grid[i][j])
        ensures grid[i][j] == Cells.Clone(source.grid[i][j]).(possibleValues := Candidates(shape, source.grid, i, j))
      {
        CandidatesOk(shape, rows, i, j, grid[i][j]);
        CandidatesFrame(shape, rows, source.grid, i, j);
      }
    }

    /// `Clone`.
    method Clone(table: Symbols.SymbolTable) returns (p: Puzzle)
      requires Valid()
      modifies table
      ensures fresh(p) && p.Valid()
      ensures table.table == [Symbols.Blank] + symbols
      ensures p.shape == shape && p.symbols == symbols
      ensures forall i, j | InGrid(shape, i, j) ::
        p.grid[i][j] == Cells.Clone(grid[i][j]).(possibleValues := Candidates(shape, grid, i, j))
    {
      p := new Puzzle.Copy(this, table);
    }

    /// `UpdateAllPossibles()` of the cell at (r, c): every row, column and box
    /// peer, the cell itself included, gets its candidates recomputed.
    method RecomputePeers(r: int, c: int)
      requires WellFormed(shape, grid) && InGrid(shape, r, c)
      modifies this
      ensures shape == old(shape) && symbols == old(symbols)
      ensures grid == RecomputedPeers(shape, old(grid), r, c)
    {
      RecomputedStart(shape, grid, r, c);
      for i := 0 to shape.size
        invariant shape == old(shape) && symbols == old(symbols)
        invariant RecomputedUpTo(shape, old(grid), grid, r, c, i)
      {
        RecomputeRound(old(grid), r, c, i);
      }
      RecomputedAll(shape, old(grid), grid, r, c);
      GridExt(shape, grid, RecomputedPeers(shape, old(grid), r, c));
    }

    /// Round i of `RecomputePeers`: the i-th cell of the column, of the row and of
    /// the box.
    method RecomputeRound(ghost g0: Grid, r: int, c: int, i: int)
      requires InGrid(shape, r, c) && 0 <= i < shape.size
      requires RecomputedUpTo(shape, g0, grid, r, c, i)
      modifies this
      ensures shape == old(shape) && symbols == old(symbols)
      ensures RecomputedUpTo(shape, g0, grid, r, c, i + 1)
    {
      ghost var before := grid;
      var x := BoxCell(shape, grid, r, c, i);
      BoxCellPlace(shape, grid, r, c, i);
      Recompute(g0, i, c);
      Recompute(g0, r, i);
      Recompute(g0, x.row, x.column);
      forall a, b | InGrid(shape, a, b)
        ensures Visited(shape, r, c, i + 1, a, b) <==>
          Visited(shape, r, c, i, a, b) || (a == i && b == c) || (a == r && b == i) || (a == x.row && b == x.column)
      {
        VisitedStep(shape, before, r, c, i, a, b);
      }
    }

    /// One step of `RecomputePeers`: the cell at (a, b) gets its candidates, which
    /// are those computed on any grid with the same codes and givens.
    method Recompute(ghost g0: Grid, a: int, b: int)
      requires SameBoard(shape, grid, g0) && InGrid(shape, a, b)
      requires grid[a][b] == g0[a][b] || grid[a][b] == Recomputed(shape, g0, a, b)
      modifies this
      ensures shape == old(shape) && symbols == old(symbols)
      ensures SameBoard(shape, grid, g0)
      ensures forall x, y | InGrid(shape, x, y) ::
        grid[x][y] == if x == a && y == b then Recomputed(shape, g0, a, b) else old(grid)[x][y]
    {
      var pv := SetPossibleValues(shape, grid, a, b);
      CandidatesFrame(shape, grid, g0, a, b);
      grid := Put(shape, grid, a, b, grid[a][b].(possibleValues := pv));
    }

    /// `UpdateAllPossibles(v)` of the cell at (r, c): v leaves the working list of
    /// every open peer other than the cell itself; nothing else changes.
    method StrikeFromPeers(r: int, c: int, v: int)
      requires Valid() && InGrid(shape, r, c)
      modifies this
      ensures shape == old(shape) && symbols == old(symbols)
      ensures WellFormed(shape, grid)
      ensures v != 0 ==> Valid()
      ensures grid == StruckPeers(shape, old(grid), r, c, v)
    {
      StruckStart(shape, grid, r, c, v);
      for i := 0 to shape.size
        invariant shape == old(shape) && symbols == old(symbols)
        invariant StruckUpTo(shape, old(grid), grid, r, c, v, i)
      {
        StrikeRound(old(grid), r, c, v, i);
      }
      StruckAllOk(shape, old(grid), grid, r, c, v);
    }

    /// Round i of `StrikeFromPeers`: the i-th cell of the column, of the row and of
    /// the box.
    method StrikeRound(ghost g0: Grid, r: int, c: int, v: int, i: int)
      requires InGrid(shape, r, c) && 0 <= i < shape.size
      requires GridOk(shape, g0) && StruckUpTo(shape, g0, grid, r, c, v, i)
      modifies this
      ensures shape == old(shape) && symbols == old(symbols)
      ensures StruckUpTo(shape, g0, grid, r, c, v, i + 1)
    {
      var x := BoxCell(shape, grid, r, c, i);
      StrikeRoundOk(shape, g0, grid, r, c, v, i);
      grid := StrikeCell(shape, grid, r, c, i, c, v);
      grid := StrikeCell(shape, grid, r, c, r, i, v);
      grid := StrikeCell(shape, grid, r, c, x.row, x.column, v);
    }

    /// `SetStartPoints`: every cell holding a code becomes a given; nothing else
    /// changes.
    method SetStartPoints()
      requires Valid()
      modifies this
      ensures shape == old(shape) && symbols == old(symbols)
      ensures Valid()
      ensures forall a, b | InGrid(shape, a, b) :: grid[a][b] == Started(old(grid)[a][b])
    {
      for i := 0 to shape.size
        invariant shape == old(shape) && symbols == old(symbols)
        invariant Valid()
        invariant forall a, b | InGrid(shape, a, b) ::
          grid[a][b] == if a < i then Started(old(grid)[a][b]) else old(grid)[a][b]
      {
        for j := 0 to shape.size
          invariant shape == old(shape) && symbols == old(symbols)
          invariant Valid()
          invariant forall a, b | InGrid(shape, a, b) ::
            grid[a][b] == if a < i || (a == i && b < j) then Started(old(grid)[a][b]) else old(grid)[a][b]
        {
          if grid[i][j].content != 0 {
            grid := Put(shape, grid, i, j, grid[i][j].(startPoint := true));
          }
        }
      }
    }

    /// `puzzleAsArray`: a fresh matrix of the codes.
    method PuzzleAsArray() returns (m: array2<int>)
      requires WellFormed(shape, grid)
      ensures fresh(m) && m.Length0 == shape.size && m.Length1 == shape.size
      ensures forall i, j | InGrid(shape, i, j) :: m[i, j] == grid[i][j].content
    {
      m := new int[shape.size, shape.size];
      for i := 0 to shape.size
        invariant forall a, b | 0 <= a < i && 0 <= b < shape.size :: m[a, b] == grid[a][b].content
      {
        for j := 0 to shape.size
          invariant forall a, b | 0 <= a < i && 0 <= b < shape.size :: m[a, b] == grid[a][b].content
          invariant forall b | 0 <= b < j :: m[i, b] == grid[i][b].content
        {
          m[i, j] := grid[i][j].content;
        }
      }
    }
  }

  lemma DefaultSymbolsOk(sh: Shape)
    requires sh.size <= |Symbols.Full| && sh.size >= 0
    ensures SymbolsOk(sh, Symbols.Full[..sh.size])
  {
    Symbols.DefaultTableValid(sh.size);
    var t := [Symbols.Blank] + Symbols.Full[..sh.size];
    assert Symbols.Full[..sh.size] == t[1..];
    assert forall k | 0 <= k < sh.size :: Symbols.Full[k] != Symbols.Unset;
  }
}
