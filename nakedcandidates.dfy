/// `NakedCandidates`: i open cells of a line whose candidates together are
/// exactly i codes; those codes are struck from the other cells of the line.
module NakedCandidatesAlgorithm {
  import opened Lists
  import opened Numerals
  import opened Cells
  import opened Relations
  import opened Puzzles
  import opened Algorithms

  /// One pass of the inner loop of `SearchLine` for size i: x and its codes to
  /// start with, then each other cell of the line with at most i candidates
  /// joins when the running union then holds exactly i codes.
  function Scan(line: seq<Cell>, x: Cell, i: int): (s: (seq<Cell>, seq<int>))
    requires Readable(line) && |x.possibleValues| >= 1
    ensures |s.0| >= 1 && s.0[0] == x && Readable(s.0)
    ensures forall k | 1 <= k < |s.0| :: s.0[k] in line && !SameCell(s.0[k], x)
  {
    if line == [] then ([x], Pending(x))
    else
      var init, y := line[..|line| - 1], line[|line| - 1];
      var prev := Scan(init, x, i);
      var u := Union(prev.1, Pending(y));
      if !SameCell(y, x) && |Pending(y)| <= i && |u| == i then (prev.0 + [y], u) else prev
  }

  /// Every candidate of y is one of the codes.
  predicate Within(y: Cell, vals: seq<int>)
    requires |y.possibleValues| >= 1
  {
    forall v | v in Pending(y) :: v in vals
  }

  /// The collected codes are exactly the candidates of the collected cells,
  /// none repeated, and once a cell has joined they number exactly i.
  predicate Collected(cells: seq<Cell>, vals: seq<int>, i: int)
    requires Readable(cells)
  {
    NoDups(vals) &&
    (forall k | 0 <= k < |cells| :: Within(cells[k], vals)) &&
    (forall v | v in vals :: Holds(cells, v)) &&
    (|cells| >= 2 ==> |vals| == i)
  }

  lemma {:induction false} ScanFacts(line: seq<Cell>, x: Cell, i: int)
    requires Readable(line) && ListsOk(x) && !x.startPoint
    ensures var s := Scan(line, x, i); Collected(s.0, s.1, i)
  {
    if line == [] {
      PendingOk(x);
      forall v | v in Pending(x) ensures Holds([x], v) {
        assert v in Pending([x][0]);
      }
    } else {
      var init, y := line[..|line| - 1], line[|line| - 1];
      ScanFacts(init, x, i);
      var prev := Scan(init, x, i);
      if !SameCell(y, x) && |Pending(y)| <= i && |Union(prev.1, Pending(y))| == i {
        Join(prev.0, prev.1, y, i);
      }
    }
  }

  /// A cell joining keeps the collection's facts.
  lemma Join(cells: seq<Cell>, vals: seq<int>, y: Cell, i: int)
    requires Readable(cells) && |cells| >= 1 && |y.possibleValues| >= 1
    requires Collected(cells, vals, i) && |Union(vals, Pending(y))| == i
    ensures Collected(cells + [y], Union(vals, Pending(y)), i)
  {
    var u := Union(vals, Pending(y));
    var more := cells + [y];
    UnionMembership(vals, Pending(y));
    forall k | 0 <= k < |more| ensures Within(more[k], u) {
      if k < |cells| {
        assert more[k] == cells[k] && Within(cells[k], vals);
      }
    }
    forall v | v in u ensures Holds(more, v) {
      if v in vals {
        var k :| 0 <= k < |cells| && v in Pending(cells[k]);
        assert more[k] == cells[k];
      } else {
        assert v in Pending(more[|cells|]);
      }
    }
  }

  /// The size i is accepted: exactly i cells were collected, fewer than the
  /// line has.
  predicate Fits(line: seq<Cell>, x: Cell, i: int)
    requires Readable(line) && |x.possibleValues| >= 1
  {
    var s := Scan(line, x, i);
    |s.0| == i && |s.0| < |line|
  }

  /// The outer loop of `SearchLine` from size i to `half`: the cells and codes
  /// of the first size accepted, or no cells and the cell's own codes.
  function Accepted(line: seq<Cell>, x: Cell, i: int, half: int): (seq<Cell>, seq<int>)
    requires Readable(line) && |x.possibleValues| >= 1
    decreases half - i
  {
    if i > half then ([], Pending(x))
    else if Fits(line, x, i) then Scan(line, x, i)
    else Accepted(line, x, i + 1, half)
  }

  /// The search settles on the first size from i to `half` that fits, and
  /// finds nothing when none does.
  lemma {:induction false} AcceptedFirst(line: seq<Cell>, x: Cell, i: int, half: int)
    requires Readable(line) && |x.possibleValues| >= 1
    ensures var f := Accepted(line, x, i, half);
      (f.0 == [] <==> forall j | i <= j <= half :: !Fits(line, x, j)) &&
      (f.0 == [] ==> f.1 == Pending(x)) &&
      (f.0 != [] ==>
        i <= |f.0| <= half && Fits(line, x, |f.0|) && f == Scan(line, x, |f.0|) &&
        (forall j | i <= j < |f.0| :: !Fits(line, x, j)))
    decreases half - i
  {
    if i <= half && !Fits(line, x, i) {
      AcceptedFirst(line, x, i + 1, half);
    }
  }

  /// A set the search settles on with more than one cell is a naked set: x
  /// and other cells of the line, as many as the codes, whose candidates are
  /// exactly those codes; none of them is 0.
  lemma NakedSet(line: seq<Cell>, x: Cell, i: int, half: int)
    requires Readable(line) && ListsOk(x) && !x.startPoint
    requires forall k | 0 <= k < |line| :: ListsOk(line[k]) && !line[k].startPoint
    ensures var f := Accepted(line, x, i, half);
      |f.0| > 1 ==>
        f.0[0] == x && |f.0| == |f.1| && |f.0| < |line| && NoDups(f.1) && 0 !in f.1 &&
        (forall k | 1 <= k < |f.0| :: f.0[k] in line && !SameCell(f.0[k], x)) &&
        (forall k | 0 <= k < |f.0| :: Within(f.0[k], f.1)) &&
        (forall v | v in f.1 :: Holds(f.0, v))
  {
    var f := Accepted(line, x, i, half);
    AcceptedFirst(line, x, i, half);
    if |f.0| > 1 {
      ScanFacts(line, x, |f.0|);
      forall v | v in f.1 ensures v != 0 {
        var k :| 0 <= k < |f.0| && v in Pending(f.0[k]);
        if k == 0 {
          PendingOk(x);
        }
      }
    }
  }

  /// `SearchLine` on one line, starting from the grid h and the report so far:
  /// the grid, whether a working list changed, and the report.
  function LineSearched(sh: Shape, h: Grid, line: seq<Cell>, x: Cell, rep: Report): (Grid, bool, Report)
    requires WellFormed(sh, h) && Readable(line) && Placed(sh, line) && |x.possibleValues| >= 1
  {
    var f := Accepted(line, x, |Pending(x)|, sh.size / 2);
    if |f.0| > 1 then
      OthersPlaced(sh, line, f.0);
      var t := StrikeCells(sh, h, Others(line, f.0), f.1);
      (t.0, t.1, Report(x.row, x.column, Eliminated(f.1, "nearby cells"), "Naked " + Format(|f.0|) + "'s"))
    else (h, false, rep)
  }

  /// One line only narrows working lists, keeps the grid in shape, reports a
  /// change exactly when a list shrank, and either leaves the report as it
  /// was or writes one naming as many cells as codes eliminated.
  lemma LineNarrows(sh: Shape, h: Grid, line: seq<Cell>, x: Cell, rep: Report)
    requires GridOk(sh, h) && Searchable(sh, line) && Readable(line) && ListsOk(x) && !x.startPoint
    ensures var s := LineSearched(sh, h, line, x, rep);
      GridOk(sh, s.0) && Narrowing(sh, h, s.0) && (s.1 <==> Shrunk(sh, h, s.0)) && (!s.1 ==> s.0 == h) &&
      KeepsZero(sh, h, s.0) && (s.2 == rep || Named(s.2, x)) && (s.1 ==> Named(s.2, x))
  {
    var f := Accepted(line, x, |Pending(x)|, sh.size / 2);
    NakedSet(line, x, |Pending(x)|, sh.size / 2);
    var s := LineSearched(sh, h, line, x, rep);
    if |f.0| > 1 {
      OthersPlaced(sh, line, f.0);
      var targets := Others(line, f.0);
      StrikeCellsKeepsZero(sh, h, targets, f.1);
      StrikeKeepsOk(sh, h, targets, f.1);
      StrikeCellsNarrowing(sh, h, targets, f.1);
      StrikeCellsIdle(sh, h, targets, f.1);
    } else {
      forall a, b | InGrid(sh, a, b) ensures h[a][b] == h[a][b].(updated := h[a][b].updated) { }
    }
  }

  /// A report of this algorithm: at the cell, codes eliminated from nearby
  /// cells, and a name counting as many cells as codes.
  predicate Named(rep: Report, x: Cell)
  {
    rep.row == x.row && rep.column == x.column && rep.message.Eliminated? &&
    rep.message.place == "nearby cells" && rep.name == "Naked " + Format(|rep.message.values|) + "'s"
  }

  /// What the struck line looks like: the cells of the line outside the naked
  /// set lose its codes from their working lists, and every other cell,
  /// those of the set included, is left as it was.
  lemma LineStrikes(sh: Shape, h: Grid, line: seq<Cell>, x: Cell, rep: Report)
    requires GridOk(sh, h) && Searchable(sh, line) && Readable(line) && ListsOk(x) && !x.startPoint
    ensures var s := LineSearched(sh, h, line, x, rep); var f := Accepted(line, x, |Pending(x)|, sh.size / 2);
      (|f.0| <= 1 ==> s == (h, false, rep)) &&
      (|f.0| > 1 ==>
        (forall a, b | InGrid(sh, a, b) ::
          s.0[a][b] == if Targeted(Others(line, f.0), a, b) then h[a][b].(updated := Drop(h[a][b].updated, f.1)) else h[a][b]) &&
        forall k | 0 <= k < |f.0| :: !Targeted(Others(line, f.0), f.0[k].row, f.0[k].column))
  {
    var f := Accepted(line, x, |Pending(x)|, sh.size / 2);
    if |f.0| > 1 {
      OthersPlaced(sh, line, f.0);
      var targets := Others(line, f.0);
      StrikeCellsEffect(sh, h, targets, f.1);
      forall k | 0 <= k < |f.0| ensures !Targeted(targets, f.0[k].row, f.0[k].column) {
        if Targeted(targets, f.0[k].row, f.0[k].column) {
          var j :| 0 <= j < |targets| && targets[j].row == f.0[k].row && targets[j].column == f.0[k].column;
          assert targets[j] in targets && SameCell(f.0[k], targets[j]);
        }
      }
    }
  }

  /// The row, the column and the box searched in turn, from the grid g: the
  /// grid, whether any line changed a working list, and the last report.
  function Swept(sh: Shape, g: Grid, x: Cell, row: seq<Cell>, col: seq<Cell>, box: seq<Cell>): (Grid, bool, Report)
    requires WellFormed(sh, g) && |x.possibleValues| >= 1
    requires Readable(row) && Placed(sh, row) && Readable(col) && Placed(sh, col) && Readable(box) && Placed(sh, box)
  {
    var a := LineSearched(sh, g, row, x, Initial(NakedCandidates));
    var b := LineSearched(sh, a.0, col, x, a.2);
    var d := LineSearched(sh, b.0, box, x, b.2);
    (d.0, a.1 || b.1 || d.1, d.2)
  }

  /// The three lines together only narrow working lists, report a change
  /// exactly when a list shrank, and then leave a report of this algorithm.
  lemma SweptNarrows(sh: Shape, g: Grid, x: Cell, row: seq<Cell>, col: seq<Cell>, box: seq<Cell>)
    requires GridOk(sh, g) && ListsOk(x) && !x.startPoint
    requires Searchable(sh, row) && Readable(row) && Searchable(sh, col) && Readable(col)
    requires Searchable(sh, box) && Readable(box)
    ensures var t := Swept(sh, g, x, row, col, box);
      GridOk(sh, t.0) && Narrowing(sh, g, t.0) && (t.1 <==> Shrunk(sh, g, t.0)) && (!t.1 ==> t.0 == g) &&
      KeepsZero(sh, g, t.0) && (t.1 ==> Named(t.2, x))
  {
    var a := LineSearched(sh, g, row, x, Initial(NakedCandidates));
    LineNarrows(sh, g, row, x, Initial(NakedCandidates));
    var b := LineSearched(sh, a.0, col, x, a.2);
    LineNarrows(sh, a.0, col, x, a.2);
    var d := LineSearched(sh, b.0, box, x, b.2);
    LineNarrows(sh, b.0, box, x, b.2);
    NarrowingChain(sh, g, a.0, b.0);
    NarrowingChain(sh, g, b.0, d.0);
    KeepsZeroChain(sh, g, a.0, b.0);
    KeepsZeroChain(sh, g, b.0, d.0);
  }

  /// What `Search` on the open cell at (r, c) does: when the cell has at most
  /// N/2 candidates its row, column and box are searched in turn; the search
  /// only narrows working lists, returns `null` exactly when one shrank, and
  /// then reports codes eliminated by as many cells as codes.
  function Searched(sh: Shape, g: Grid, r: int, c: int): (s: Step)
    requires GridOk(sh, g) && InGrid(sh, r, c) && Open(g[r][c])
    ensures s.verdict != Entered
    ensures |Pending(g[r][c])| > sh.size / 2 ==> s == Step(g, Unchanged, Initial(NakedCandidates))
    ensures GridOk(sh, s.grid) && Narrowing(sh, g, s.grid) && KeepsZero(sh, g, s.grid)
    ensures s.verdict == Narrowed <==> Shrunk(sh, g, s.grid)
    ensures s.verdict == Unchanged ==> s.grid == g
    ensures s.verdict == Narrowed ==> s.report.row == r && s.report.column == c && Named(s.report, g[r][c])
  {
    var x := g[r][c];
    LinesSearchable(sh, g, r, c);
    assert ListsOk(x);
    if |Pending(x)| <= sh.size / 2 then
      var row, col, box := OpenRow(sh, g, r), OpenColumn(sh, g, c), OpenBox(sh, g, r, c);
      SweptNarrows(sh, g, x, row, col, box);
      var t := Swept(sh, g, x, row, col, box);
      Step(t.0, if t.1 then Narrowed else Unchanged, t.2)
    else
      Step(g, Unchanged, Initial(NakedCandidates))
  }

  /// `SearchLine`: the loops over sizes and over the line, then the
  /// elimination over the cells outside the set found.
  method SearchLine(p: Puzzle, line: seq<Cell>, x: Cell, rep: Report) returns (changed: bool, rep': Report)
    requires WellFormed(p.shape, p.grid) && Readable(line) && Placed(p.shape, line) && |x.possibleValues| >= 1
    modifies p
    ensures p.shape == old(p.shape) && p.symbols == old(p.symbols)
    ensures (p.grid, changed, rep') == LineSearched(p.shape, old(p.grid), line, x, rep)
  {
    var possibles := Pending(x);
    var half := p.shape.size / 2;
    var found: seq<Cell> := [];
    var i := |possibles|;
    while i <= half
      invariant Accepted(line, x, |Pending(x)|, half) == Accepted(line, x, i, half)
      invariant found == [] && possibles == Pending(x)
      decreases half - i
    {
      found := [x];
      var union := possibles;
      for j := 0 to |line|
        invariant (found, union) == Scan(line[..j], x, i)
      {
        assert line[..j + 1][..j] == line[..j];
        var y := line[j];
        if !SameCell(y, x) && |Pending(y)| <= i && |Union(union, Pending(y))| == i {
          union := Union(union, Pending(y));
          found := found + [y];
        }
      }
      assert line[..|line|] == line;
      if |found| == i && |found| < |line| {
        possibles := union;
        break;
      }
      found := [];
      i := i + 1;
    }
    assert (found, possibles) == Accepted(line, x, |Pending(x)|, half);
    if |found| > 1 {
      rep' := Report(x.row, x.column, Eliminated(possibles, "nearby cells"), "Naked " + Format(|found|) + "'s");
      changed := StrikeOthers(p, line, found, possibles);
    } else {
      changed, rep' := false, rep;
    }
  }

  /// `Search`: the grid, the verdict and the report are those of `Searched`.
  method Search(p: Puzzle, r: int, c: int) returns (verdict: Verdict, report: Report)
    requires p.Valid() && InGrid(p.shape, r, c) && Open(p.grid[r][c])
    modifies p
    ensures p.shape == old(p.shape) && p.symbols == old(p.symbols) && p.Valid()
    ensures Step(p.grid, verdict, report) == Searched(p.shape, old(p.grid), r, c)
  {
    report := Initial(NakedCandidates);
    verdict := Unchanged;
    LinesSearchable(p.shape, p.grid, r, c);
    var x := p.grid[r][c];
    var row := OpenCells(RowOf(p.shape, p.grid, r));
    var column := OpenCells(ColumnOf(p.shape, p.grid, c));
    var box := OpenCells(BoxOf(p.shape, p.grid, r, c));
    if |Pending(x)| <= p.shape.size / 2 {
      var inRow, inColumn, inBox;
      inRow, report := SearchLine(p, row, x, report);
      inColumn, report := SearchLine(p, column, x, report);
      inBox, report := SearchLine(p, box, x, report);
      assert (p.grid, inRow || inColumn || inBox, report) == Swept(p.shape, old(p.grid), x, row, column, box);
      if inRow || inColumn || inBox {
        verdict := Narrowed;
      }
    }
    ghost var s := Searched(p.shape, old(p.grid), r, c);
    assert Step(p.grid, verdict, report) == s;
    assert GridOk(p.shape, s.grid);
  }
}
