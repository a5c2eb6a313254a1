/// `HiddenSingle`: a candidate of the cell that no other open cell of its
/// column, row or box can take.
module HiddenSingleAlgorithm {
  import opened Wrappers
  import opened Lists
  import opened Cells
  import opened Relations
  import opened Puzzles
  import opened Algorithms

  /// The loop of `SearchLine`: from `start`, the codes of each cell of the line
  /// other than x are taken away (`Except`) while any code is left.
  function LineFound(line: seq<Cell>, x: Cell, start: seq<int>): seq<int>
    requires Readable(line)
  {
    if line == [] then start
    else
      var prev := LineFound(line[..|line| - 1], x, start);
      var y := line[|line| - 1];
      if !SameCell(y, x) && |prev| > 0 then Except(prev, Pending(y)) else prev
  }

  /// Some cell of the line other than x has v among its candidates.
  predicate HeldElsewhere(line: seq<Cell>, x: Cell, v: int)
    requires Readable(line)
  {
    exists k | 0 <= k < |line| :: !SameCell(line[k], x) && v in Pending(line[k])
  }

  /// What is left of `start` is what no other cell of the line holds.
  lemma {:induction false} LineFoundMembers(line: seq<Cell>, x: Cell, start: seq<int>)
    requires Readable(line) && NoDups(start)
    ensures NoDups(LineFound(line, x, start))
    ensures forall v :: v in LineFound(line, x, start) <==> v in start && !HeldElsewhere(line, x, v)
  {
    if line != [] {
      var init, y := line[..|line| - 1], line[|line| - 1];
      LineFoundMembers(init, x, start);
      var prev := LineFound(init, x, start);
      ExceptMembership(prev, Pending(y));
      forall v ensures HeldElsewhere(line, x, v) <==> HeldElsewhere(init, x, v) || (!SameCell(y, x) && v in Pending(y)) {
        if HeldElsewhere(line, x, v) {
          var k :| 0 <= k < |line| && !SameCell(line[k], x) && v in Pending(line[k]);
          if k < |init| {
            assert line[k] == init[k];
          }
        }
        if HeldElsewhere(init, x, v) {
          var k :| 0 <= k < |init| && !SameCell(init[k], x) && v in Pending(init[k]);
          assert line[k] == init[k];
        }
      }
    }
  }

  /// v is the one candidate of x that no other cell of the line holds.
  predicate Unique(line: seq<Cell>, x: Cell, v: int)
    requires Readable(line) && |x.possibleValues| >= 1
  {
    v in Pending(x) && !HeldElsewhere(line, x, v) &&
    forall u | u in Pending(x) && !HeldElsewhere(line, x, u) :: u == v
  }

  /// A line search succeeds exactly when the cell has such a candidate, and
  /// then yields it.
  lemma LineFoundUnique(line: seq<Cell>, x: Cell, v: int)
    requires Readable(line) && ListsOk(x) && !x.startPoint
    ensures var f := LineFound(line, x, Pending(x));
      |f| == 1 && f[0] == v <==> Unique(line, x, v)
  {
    PendingOk(x);
    var f := LineFound(line, x, Pending(x));
    LineFoundMembers(line, x, Pending(x));
    if |f| == 1 && f[0] == v {
      assert f[0] in f;
    }
    if Unique(line, x, v) {
      OnlyMember(f, v);
    }
  }

  /// `SearchLine`: whether the line leaves exactly one code, and the list the
  /// `ref` parameter then holds.
  method SearchLine(line: seq<Cell>, x: Cell, possibles: seq<int>) returns (success: bool, result: seq<int>)
    requires Readable(line)
    ensures success <==> |LineFound(line, x, possibles)| == 1
    ensures result == if success then LineFound(line, x, possibles) else possibles
  {
    var found := possibles;
    for k := 0 to |line|
      invariant found == LineFound(line[..k], x, possibles)
    {
      assert line[..k + 1][..k] == line[..k];
      if !SameCell(line[k], x) && |found| > 0 {
        found := Except(found, Pending(line[k]));
      }
    }
    assert line[..|line|] == line;
    if |found| == 1 {
      return true, found;
    }
    return false, possibles;
  }

  /// The code the search settles on: that of the first of the column, the row
  /// and the box whose search succeeds.
  function Found(sh: Shape, g: Grid, r: int, c: int): (o: Option<int>)
    requires GridOk(sh, g) && InGrid(sh, r, c)
  {
    LinesOk(sh, g, r, c);
    var x := g[r][c];
    var p := Pending(x);
    First(LineFound(OpenColumn(sh, g, c), x, p), LineFound(OpenRow(sh, g, r), x, p), LineFound(OpenBox(sh, g, r, c), x, p))
  }

  /// The `||` of the three line searches: the first result that is one code.
  function First(cf: seq<int>, rf: seq<int>, bf: seq<int>): (o: Option<int>)
    ensures forall v :: o == Some(v) <==>
      Yields(cf, v) || (|cf| != 1 && Yields(rf, v)) || (|cf| != 1 && |rf| != 1 && Yields(bf, v))
    ensures o.None? <==> |cf| != 1 && |rf| != 1 && |bf| != 1
  {
    if |cf| == 1 then Some(cf[0])
    else if |rf| == 1 then Some(rf[0])
    else if |bf| == 1 then Some(bf[0])
    else None
  }

  /// The line search left exactly the code v.
  predicate Yields(f: seq<int>, v: int)
  {
    |f| == 1 && f[0] == v
  }

  /// No candidate of x is left alone by the line.
  ghost predicate NoneUnique(line: seq<Cell>, x: Cell)
    requires Readable(line) && |x.possibleValues| >= 1
  {
    forall v :: !Unique(line, x, v)
  }

  /// One line: its search yields v exactly when v is unique to x there, and
  /// succeeds exactly when some code is.
  lemma LineVerdict(line: seq<Cell>, x: Cell)
    requires Readable(line) && ListsOk(x) && !x.startPoint
    ensures forall v :: Yields(LineFound(line, x, Pending(x)), v) <==> Unique(line, x, v)
    ensures |LineFound(line, x, Pending(x))| == 1 <==> !NoneUnique(line, x)
  {
    var f := LineFound(line, x, Pending(x));
    forall v ensures Yields(f, v) <==> Unique(line, x, v) {
      LineFoundUnique(line, x, v);
    }
    if |f| == 1 {
      assert Yields(f, f[0]);
    }
  }

  /// The search finds v exactly when v is the one candidate of the cell left
  /// alone by its column, or else by its row, or else by its box; it finds
  /// nothing when no line leaves a single candidate.
  lemma FoundLines(sh: Shape, g: Grid, r: int, c: int)
    requires GridOk(sh, g) && InGrid(sh, r, c) && Open(g[r][c])
    ensures var x, col, row, box := g[r][c], OpenColumn(sh, g, c), OpenRow(sh, g, r), OpenBox(sh, g, r, c);
      Readable(col) && Readable(row) && Readable(box) &&
      (forall v :: Found(sh, g, r, c) == Some(v) <==>
        Unique(col, x, v) || (NoneUnique(col, x) && Unique(row, x, v)) ||
        (NoneUnique(col, x) && NoneUnique(row, x) && Unique(box, x, v))) &&
      (Found(sh, g, r, c).None? <==> NoneUnique(col, x) && NoneUnique(row, x) && NoneUnique(box, x))
  {
    LinesOk(sh, g, r, c);
    var x := g[r][c];
    assert ListsOk(x);
    var col, row, box := OpenColumn(sh, g, c), OpenRow(sh, g, r), OpenBox(sh, g, r, c);
    var p := Pending(x);
    LineVerdict(col, x);
    LineVerdict(row, x);
    LineVerdict(box, x);
    assert Found(sh, g, r, c) == First(LineFound(col, x, p), LineFound(row, x, p), LineFound(box, x, p));
  }

  /// What `Search` on the open cell at (r, c) does: when a code v is found,
  /// the cell's working list becomes [0, v], v is struck from the working
  /// lists of its open peers and the search returns `null` without writing
  /// the content; otherwise nothing changes.
  function Searched(sh: Shape, g: Grid, r: int, c: int): (s: Step)
    requires GridOk(sh, g) && InGrid(sh, r, c) && Open(g[r][c])
    ensures s.verdict != Entered
    ensures s.verdict == Narrowed <==> Found(sh, g, r, c).Some?
    ensures s.verdict == Unchanged ==> s.grid == g && s.report == Initial(HiddenSingle)
    ensures s.verdict == Narrowed ==> var v := Found(sh, g, r, c).value;
      v in g[r][c].possibleValues && v != 0 &&
      s.report == Report(r, c, FoundToBe(v), "Hidden Single") &&
      WellFormed(sh, s.grid) && s.grid[r][c] == g[r][c].(updated := [0, v]) &&
      forall a, b | InGrid(sh, a, b) && (a != r || b != c) ::
        s.grid[a][b] == if Peer(sh, r, c, a, b) && Open(g[a][b]) then Struck(g[a][b], v) else g[a][b]
    ensures GridOk(sh, s.grid) && KeepsZero(sh, g, s.grid)
  {
    var x := g[r][c];
    match Found(sh, g, r, c)
    case None => Step(g, Unchanged, Initial(HiddenSingle))
    case Some(v) =>
      FoundCandidate(sh, g, r, c);
      PinnedEffect(sh, g, r, c, v);
      Step(Pinned(sh, g, r, c, v), Narrowed, Report(r, c, FoundToBe(v), "Hidden Single"))
  }

  /// The grid after the hidden single v at (r, c): the cell's working list
  /// becomes [0, v] and v is struck from its open peers.
  function Pinned(sh: Shape, g: Grid, r: int, c: int, v: int): Grid
    requires WellFormed(sh, g) && InGrid(sh, r, c)
  {
    StruckPeers(sh, Put(sh, g, r, c, g[r][c].(updated := [0, v])), r, c, v)
  }

  lemma PinnedEffect(sh: Shape, g: Grid, r: int, c: int, v: int)
    requires GridOk(sh, g) && InGrid(sh, r, c) && Open(g[r][c]) && v != 0
    ensures var h := Pinned(sh, g, r, c, v);
      GridOk(sh, h) && KeepsZero(sh, g, h) && h[r][c] == g[r][c].(updated := [0, v]) &&
      forall a, b | InGrid(sh, a, b) && (a != r || b != c) ::
        h[a][b] == if Peer(sh, r, c, a, b) && Open(g[a][b]) then Struck(g[a][b], v) else g[a][b]
  {
    var x := g[r][c];
    var g1 := Put(sh, g, r, c, x.(updated := [0, v]));
    assert ListsOk(x);
    PutKeepsOk(sh, g, r, c, x.(updated := [0, v]));
    StruckPeersKeepZero(sh, g1, r, c, v);
    KeepsZeroChain(sh, g, g1, Pinned(sh, g, r, c, v));
  }

  /// The code found is a candidate of the cell other than 0.
  lemma FoundCandidate(sh: Shape, g: Grid, r: int, c: int)
    requires GridOk(sh, g) && InGrid(sh, r, c) && Open(g[r][c])
    ensures Found(sh, g, r, c).Some? ==> var v := Found(sh, g, r, c).value;
      v in Pending(g[r][c]) && v in g[r][c].possibleValues && v != 0
  {
    LinesOk(sh, g, r, c);
    var x := g[r][c];
    assert ListsOk(x);
    PendingOk(x);
    var p := Pending(x);
    var col, row, box := OpenColumn(sh, g, c), OpenRow(sh, g, r), OpenBox(sh, g, r, c);
    LineFoundMembers(col, x, p);
    LineFoundMembers(row, x, p);
    LineFoundMembers(box, x, p);
    var cf, rf, bf := LineFound(col, x, p), LineFound(row, x, p), LineFound(box, x, p);
    assert Found(sh, g, r, c) == First(cf, rf, bf);
    if |cf| == 1 {
      assert cf[0] in cf;
    } else if |rf| == 1 {
      assert rf[0] in rf;
    } else if |bf| == 1 {
      assert bf[0] in bf;
    }
  }

  /// `Search`: the grid, the verdict and the report are those of `Searched`.
  method Search(p: Puzzle, r: int, c: int) returns (verdict: Verdict, report: Report)
    requires p.Valid() && InGrid(p.shape, r, c) && Open(p.grid[r][c])
    modifies p
    ensures p.shape == old(p.shape) && p.symbols == old(p.symbols) && p.Valid()
    ensures Step(p.grid, verdict, report) == Searched(p.shape, old(p.grid), r, c)
  {
    report := Initial(HiddenSingle);
    LinesOk(p.shape, p.grid, r, c);
    var x := p.grid[r][c];
    var possibles := Pending(x);
    var column := OpenCells(ColumnOf(p.shape, p.grid, c));
    var success, found := SearchLine(column, x, possibles);
    if !success {
      var row := OpenCells(RowOf(p.shape, p.grid, r));
      success, found := SearchLine(row, x, possibles);
      if !success {
        var box := OpenCells(BoxOf(p.shape, p.grid, r, c));
        success, found := SearchLine(box, x, possibles);
      }
    }
    assert Found(p.shape, p.grid, r, c) == if success then Some(found[0]) else None;
    if success {
      FoundCandidate(p.shape, p.grid, r, c);
      var v := found[0];
      report := Report(r, c, FoundToBe(v), report.name);
      Pin(p, r, c, v);
      verdict := Narrowed;
    } else {
      verdict := Unchanged;
    }
  }

  /// The writes of `Search` once v is found.
  method Pin(p: Puzzle, r: int, c: int, v: int)
    requires p.Valid() && InGrid(p.shape, r, c) && Open(p.grid[r][c]) && v != 0
    modifies p
    ensures p.shape == old(p.shape) && p.symbols == old(p.symbols) && p.Valid()
    ensures p.grid == Pinned(p.shape, old(p.grid), r, c, v)
  {
    var x := p.grid[r][c];
    assert ListsOk(x);
    PutKeepsOk(p.shape, p.grid, r, c, x.(updated := [0, v]));
    p.grid := Put(p.shape, p.grid, r, c, x.(updated := [0, v]));
    p.StrikeFromPeers(r, c, v);
  }
}
