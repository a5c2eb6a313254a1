/// `BoxLineReduction`: when the candidates x shares with other cells of its
/// box lie, within x's column (or row), only in the box, they are struck from
/// the rest of the box.
module BoxLineReductionAlgorithm {
  import opened Lists
  import opened Cells
  import opened Relations
  import opened Puzzles
  import opened Algorithms

  /// The column case, then the row case, from the grid g.
  function Cases(sh: Shape, g: Grid, x: Cell, box: seq<Cell>, col: seq<Cell>, row: seq<Cell>): (Grid, bool, Report)
    requires WellFormed(sh, g) && Readable(col) && Readable(row) && Placed(sh, box) && |x.possibleValues| >= 1
  {
    var gs := Groups(box, x);
    var a := GroupCase(sh, g, x, gs.1, col, box, "SubGrid", Initial(BoxLineReduction));
    var b := GroupCase(sh, a.0, x, gs.0, row, box, "SubGrid", a.2);
    (b.0, a.1 || b.1, b.2)
  }

  /// The two cases together only narrow working lists, report a change
  /// exactly when a list shrank, and then leave the report of one of them.
  lemma CasesNarrow(sh: Shape, g: Grid, x: Cell, box: seq<Cell>, col: seq<Cell>, row: seq<Cell>)
    requires GridOk(sh, g) && Readable(col) && Readable(row) && Placed(sh, box) && ListsOk(x) && !x.startPoint
    ensures var t := Cases(sh, g, x, box, col, row); var gs := Groups(box, x);
      GridOk(sh, t.0) && Narrowing(sh, g, t.0) && (t.1 <==> Shrunk(sh, g, t.0)) && (!t.1 ==> t.0 == g) &&
      KeepsZero(sh, g, t.0) && t.2.name == "Box Line Reduction" &&
      (t.1 ==>
        t.2 == Report(x.row, x.column, Eliminated(Confined(col, x, gs.1), "SubGrid"), "Box Line Reduction") ||
        t.2 == Report(x.row, x.column, Eliminated(Confined(row, x, gs.0), "SubGrid"), "Box Line Reduction"))
  {
    var gs := Groups(box, x);
    var a := GroupCase(sh, g, x, gs.1, col, box, "SubGrid", Initial(BoxLineReduction));
    GroupCaseNarrows(sh, g, x, gs.1, col, box, "SubGrid", Initial(BoxLineReduction));
    GroupCaseNarrows(sh, a.0, x, gs.0, row, box, "SubGrid", a.2);
    var b := GroupCase(sh, a.0, x, gs.0, row, box, "SubGrid", a.2);
    NarrowingChain(sh, g, a.0, b.0);
    KeepsZeroChain(sh, g, a.0, b.0);
  }

  /// What `Search` on the open cell at (r, c) does: it only narrows working
  /// lists, returns `null` exactly when one shrank, and then reports at the
  /// cell the codes that its column, or its row, confines to the box.
  function Searched(sh: Shape, g: Grid, r: int, c: int): (s: Step)
    requires GridOk(sh, g) && InGrid(sh, r, c) && Open(g[r][c])
    ensures s.verdict != Entered
    ensures GridOk(sh, s.grid) && Narrowing(sh, g, s.grid) && KeepsZero(sh, g, s.grid)
    ensures s.verdict == Narrowed <==> Shrunk(sh, g, s.grid)
    ensures s.verdict == Unchanged ==> s.grid == g
    ensures s.report.name == "Box Line Reduction"
    ensures Readable(OpenColumn(sh, g, c)) && Readable(OpenRow(sh, g, r)) &&
      var x, box := g[r][c], OpenBox(sh, g, r, c); var gs := Groups(box, x);
      (s.verdict == Narrowed ==>
        s.report == Report(r, c, Eliminated(Confined(OpenColumn(sh, g, c), x, gs.1), "SubGrid"), "Box Line Reduction") ||
        s.report == Report(r, c, Eliminated(Confined(OpenRow(sh, g, r), x, gs.0), "SubGrid"), "Box Line Reduction"))
  {
    var x := g[r][c];
    LinesSearchable(sh, g, r, c);
    assert ListsOk(x);
    var box, col, row := OpenBox(sh, g, r, c), OpenColumn(sh, g, c), OpenRow(sh, g, r);
    CasesNarrow(sh, g, x, box, col, row);
    var t := Cases(sh, g, x, box, col, row);
    assert GridOk(sh, t.0) && Narrowing(sh, g, t.0) && KeepsZero(sh, g, t.0);
    Step(t.0, if t.1 then Narrowed else Unchanged, t.2)
  }

  /// A code the column confines to the column group is, within x's column, a
  /// candidate only of cells of x's box.
  lemma ColumnInBox(sh: Shape, g: Grid, r: int, c: int, v: int)
    requires GridOk(sh, g) && InGrid(sh, r, c) && Open(g[r][c])
    ensures Readable(OpenColumn(sh, g, c)) &&
      var x, box, col := g[r][c], OpenBox(sh, g, r, c), OpenColumn(sh, g, c);
      v in Confined(col, x, Groups(box, x).1) ==>
        v in Pending(x) && forall k | 0 <= k < |col| && v in Pending(col[k]) :: SameBox(sh, r, c, col[k].row, col[k].column)
  {
    LinesSearchable(sh, g, r, c);
    LinesOk(sh, g, r, c);
    var x, box, col := g[r][c], OpenBox(sh, g, r, c), OpenColumn(sh, g, c);
    var group := Groups(box, x).1;
    assert ListsOk(x);
    ConfinedMembers(col, x, group);
    if v in Confined(col, x, group) {
      forall k | 0 <= k < |col| && v in Pending(col[k]) ensures SameBox(sh, r, c, col[k].row, col[k].column) {
        assert !HeldOutside(col, x, group, v);
        var j :| 0 <= j < |[x] + group| && SameCell(([x] + group)[j], col[k]);
        if j > 0 {
          assert group[j - 1] in group && group[j - 1] in box;
        }
      }
    }
  }

  /// A code the row confines to the row group is, within x's row, a candidate
  /// only of cells of x's box.
  lemma RowInBox(sh: Shape, g: Grid, r: int, c: int, v: int)
    requires GridOk(sh, g) && InGrid(sh, r, c) && Open(g[r][c])
    ensures Readable(OpenRow(sh, g, r)) &&
      var x, box, row := g[r][c], OpenBox(sh, g, r, c), OpenRow(sh, g, r);
      v in Confined(row, x, Groups(box, x).0) ==>
        v in Pending(x) && forall k | 0 <= k < |row| && v in Pending(row[k]) :: SameBox(sh, r, c, row[k].row, row[k].column)
  {
    LinesSearchable(sh, g, r, c);
    LinesOk(sh, g, r, c);
    var x, box, row := g[r][c], OpenBox(sh, g, r, c), OpenRow(sh, g, r);
    var group := Groups(box, x).0;
    assert ListsOk(x);
    ConfinedMembers(row, x, group);
    if v in Confined(row, x, group) {
      forall k | 0 <= k < |row| && v in Pending(row[k]) ensures SameBox(sh, r, c, row[k].row, row[k].column) {
        assert !HeldOutside(row, x, group, v);
        var j :| 0 <= j < |[x] + group| && SameCell(([x] + group)[j], row[k]);
        if j > 0 {
          assert group[j - 1] in group && group[j - 1] in box;
        }
      }
    }
  }

  /// `Search`: the grid, the verdict and the report are those of `Searched`.
  method Search(p: Puzzle, r: int, c: int) returns (verdict: Verdict, report: Report)
    requires p.Valid() && InGrid(p.shape, r, c) && Open(p.grid[r][c])
    modifies p
    ensures p.shape == old(p.shape) && p.symbols == old(p.symbols) && p.Valid()
    ensures Step(p.grid, verdict, report) == Searched(p.shape, old(p.grid), r, c)
  {
    report := Initial(BoxLineReduction);
    LinesSearchable(p.shape, p.grid, r, c);
    var x := p.grid[r][c];
    var box := OpenCells(BoxOf(p.shape, p.grid, r, c));
    var column := OpenCells(ColumnOf(p.shape, p.grid, c));
    var row := OpenCells(RowOf(p.shape, p.grid, r));
    var inRow, inColumn := BoxGroups(box, x);
    var byColumn, byRow;
    byColumn, report := RunCase(p, x, inColumn, column, box, "SubGrid", report);
    byRow, report := RunCase(p, x, inRow, row, box, "SubGrid", report);
    assert (p.grid, byColumn || byRow, report) == Cases(p.shape, old(p.grid), x, box, column, row);
    verdict := if byColumn || byRow then Narrowed else Unchanged;
    ghost var s := Searched(p.shape, old(p.grid), r, c);
    assert Step(p.grid, verdict, report) == s;
    assert GridOk(p.shape, s.grid);
  }
}
