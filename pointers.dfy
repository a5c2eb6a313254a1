/// `Pointers` (pointing pairs and triples): when the candidates x shares with
/// other cells of its box lie, within the box, only in x's column (or row),
/// they are struck from the rest of that column (or row).
module PointersAlgorithm {
  import opened Lists
  import opened Cells
  import opened Relations
  import opened Puzzles
  import opened Algorithms

  /// The column case, then the row case, from the grid g.
  function Cases(sh: Shape, g: Grid, x: Cell, box: seq<Cell>, col: seq<Cell>, row: seq<Cell>): (Grid, bool, Report)
    requires WellFormed(sh, g) && Readable(box) && Placed(sh, col) && Placed(sh, row) && |x.possibleValues| >= 1
  {
    var gs := Groups(box, x);
    var a := GroupCase(sh, g, x, gs.1, box, col, "Column", Initial(Pointers));
    var b := GroupCase(sh, a.0, x, gs.0, box, row, "Row", a.2);
    (b.0, a.1 || b.1, b.2)
  }

  /// The two cases together only narrow working lists, report a change
  /// exactly when a list shrank, and then leave the report of one of them.
  lemma CasesNarrow(sh: Shape, g: Grid, x: Cell, box: seq<Cell>, col: seq<Cell>, row: seq<Cell>)
    requires GridOk(sh, g) && Readable(box) && Placed(sh, col) && Placed(sh, row) && ListsOk(x) && !x.startPoint
    ensures var t := Cases(sh, g, x, box, col, row); var gs := Groups(box, x);
      GridOk(sh, t.0) && Narrowing(sh, g, t.0) && (t.1 <==> Shrunk(sh, g, t.0)) && (!t.1 ==> t.0 == g) &&
      KeepsZero(sh, g, t.0) && t.2.name == "Pointing Pairs/Triples" &&
      (t.1 ==>
        t.2 == Report(x.row, x.column, Eliminated(Confined(box, x, gs.1), "Column"), "Pointing Pairs/Triples") ||
        t.2 == Report(x.row, x.column, Eliminated(Confined(box, x, gs.0), "Row"), "Pointing Pairs/Triples"))
  {
    var gs := Groups(box, x);
    var a := GroupCase(sh, g, x, gs.1, box, col, "Column", Initial(Pointers));
    GroupCaseNarrows(sh, g, x, gs.1, box, col, "Column", Initial(Pointers));
    GroupCaseNarrows(sh, a.0, x, gs.0, box, row, "Row", a.2);
    var b := GroupCase(sh, a.0, x, gs.0, box, row, "Row", a.2);
    NarrowingChain(sh, g, a.0, b.0);
    KeepsZeroChain(sh, g, a.0, b.0);
  }

  /// What `Search` on the open cell at (r, c) does: it only narrows working
  /// lists, returns `null` exactly when one shrank, and then reports at the
  /// cell the codes pointing along the column or along the row.
  function Searched(sh: Shape, g: Grid, r: int, c: int): (s: Step)
    requires GridOk(sh, g) && InGrid(sh, r, c) && Open(g[r][c])
    ensures s.verdict != Entered
    ensures GridOk(sh, s.grid) && Narrowing(sh, g, s.grid) && KeepsZero(sh, g, s.grid)
    ensures s.verdict == Narrowed <==> Shrunk(sh, g, s.grid)
    ensures s.verdict == Unchanged ==> s.grid == g
    ensures s.report.name == "Pointing Pairs/Triples"
    ensures Readable(OpenBox(sh, g, r, c)) &&
      var x, box := g[r][c], OpenBox(sh, g, r, c); var gs := Groups(box, x);
      (s.verdict == Narrowed ==>
        s.report == Report(r, c, Eliminated(Confined(box, x, gs.1), "Column"), "Pointing Pairs/Triples") ||
        s.report == Report(r, c, Eliminated(Confined(box, x, gs.0), "Row"), "Pointing Pairs/Triples"))
  {
    SearchedCases(sh, g, r, c);
    var t := Cases(sh, g, g[r][c], OpenBox(sh, g, r, c), OpenColumn(sh, g, c), OpenRow(sh, g, r));
    Step(t.0, if t.1 then Narrowed else Unchanged, t.2)
  }

  /// `CasesNarrow` at the open cell (r, c) of a grid, on its open lines.
  lemma SearchedCases(sh: Shape, g: Grid, r: int, c: int)
    requires GridOk(sh, g) && InGrid(sh, r, c) && Open(g[r][c])
    ensures Readable(OpenBox(sh, g, r, c)) && Placed(sh, OpenColumn(sh, g, c)) && Placed(sh, OpenRow(sh, g, r))
    ensures |g[r][c].possibleValues| >= 1
    ensures var x, box := g[r][c], OpenBox(sh, g, r, c); var gs := Groups(box, x);
      var t := Cases(sh, g, x, box, OpenColumn(sh, g, c), OpenRow(sh, g, r));
      GridOk(sh, t.0) && Narrowing(sh, g, t.0) && KeepsZero(sh, g, t.0) && (t.1 <==> Shrunk(sh, g, t.0)) &&
      (!t.1 ==> t.0 == g) && t.2.name == "Pointing Pairs/Triples" &&
      (t.1 ==>
        t.2 == Report(r, c, Eliminated(Confined(box, x, gs.1), "Column"), "Pointing Pairs/Triples") ||
        t.2 == Report(r, c, Eliminated(Confined(box, x, gs.0), "Row"), "Pointing Pairs/Triples"))
  {
    var x := g[r][c];
    LinesSearchable(sh, g, r, c);
    assert ListsOk(x);
    var box, col, row := OpenBox(sh, g, r, c), OpenColumn(sh, g, c), OpenRow(sh, g, r);
    CasesNarrow(sh, g, x, box, col, row);
  }

  /// A code confined to the column group is, within the box, a candidate only
  /// of cells of x's column.
  lemma ColumnPointing(sh: Shape, g: Grid, r: int, c: int, v: int)
    requires GridOk(sh, g) && InGrid(sh, r, c) && Open(g[r][c])
    ensures Readable(OpenBox(sh, g, r, c)) &&
      var x, box := g[r][c], OpenBox(sh, g, r, c);
      v in Confined(box, x, Groups(box, x).1) ==>
        v in Pending(x) && forall k | 0 <= k < |box| && v in Pending(box[k]) :: box[k].column == c
  {
    LinesSearchable(sh, g, r, c);
    var x, box := g[r][c], OpenBox(sh, g, r, c);
    var group := Groups(box, x).1;
    assert ListsOk(x);
    ConfinedMembers(box, x, group);
    if v in Confined(box, x, group) {
      forall k | 0 <= k < |box| && v in Pending(box[k]) ensures box[k].column == c {
        assert !HeldOutside(box, x, group, v);
        var j :| 0 <= j < |[x] + group| && SameCell(([x] + group)[j], box[k]);
        if j > 0 {
          assert group[j - 1] in group;
        }
      }
    }
  }

  /// A code confined to the row group is, within the box, a candidate only of
  /// cells of x's row.
  lemma RowPointing(sh: Shape, g: Grid, r: int, c: int, v: int)
    requires GridOk(sh, g) && InGrid(sh, r, c) && Open(g[r][c])
    ensures Readable(OpenBox(sh, g, r, c)) &&
      var x, box := g[r][c], OpenBox(sh, g, r, c);
      v in Confined(box, x, Groups(box, x).0) ==>
        v in Pending(x) && forall k | 0 <= k < |box| && v in Pending(box[k]) :: box[k].row == r
  {
    LinesSearchable(sh, g, r, c);
    var x, box := g[r][c], OpenBox(sh, g, r, c);
    var group := Groups(box, x).0;
    assert ListsOk(x);
    ConfinedMembers(box, x, group);
    if v in Confined(box, x, group) {
      forall k | 0 <= k < |box| && v in Pending(box[k]) ensures box[k].row == r {
        assert !HeldOutside(box, x, group, v);
        var j :| 0 <= j < |[x] + group| && SameCell(([x] + group)[j], box[k]);
        if j > 0 {
          assert group[j - 1] in group;
        }
      }
    }
  }

  /// `Search`: the grid, the verdict and the report are those of `Searched`.
  method Search(p: Puzzle, r: int, c: int) returns (verdict: Verdict, report: Report)
    requires p.Valid() && InGrid(p.shape, r, c) && Open(p.grid[r][c])
    modifies p
    ensures p.shape == old(p.shape) && p.symbols == old(p.symbols) && p.Valid()
    ensures Step(p.grid, verdict, report) == Searched(p.shape, old(p.grid), r, c)
  {
    report := Initial(Pointers);
    LinesSearchable(p.shape, p.grid, r, c);
    var x := p.grid[r][c];
    var box := OpenCells(BoxOf(p.shape, p.grid, r, c));
    var column := OpenCells(ColumnOf(p.shape, p.grid, c));
    var row := OpenCells(RowOf(p.shape, p.grid, r));
    var inRow, inColumn := BoxGroups(box, x);
    var byColumn, byRow;
    byColumn, report := RunCase(p, x, inColumn, box, column, "Column", report);
    byRow, report := RunCase(p, x, inRow, box, row, "Row", report);
    assert (p.grid, byColumn || byRow, report) == Cases(p.shape, old(p.grid), x, box, column, row);
    verdict := if byColumn || byRow then Narrowed else Unchanged;
    ghost var s := Searched(p.shape, old(p.grid), r, c);
    assert Step(p.grid, verdict, report) == s;
    assert GridOk(p.shape, s.grid);
  }
}
