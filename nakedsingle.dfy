/// `NakedSingle`: a cell left with a single candidate besides code 0 takes it.
module NakedSingleAlgorithm {
  import opened Lists
  import opened Cells
  import opened Relations
  import opened Puzzles
  import opened Algorithms

  /// What `Search` on the open cell at (r, c) does: with exactly one candidate
  /// v it writes v, strikes v from the working lists of the open peers, marks
  /// the cell algorithm-entered and returns `true`; otherwise nothing changes.
  function Searched(sh: Shape, g: Grid, r: int, c: int): (s: Step)
    requires GridOk(sh, g) && InGrid(sh, r, c) && Open(g[r][c])
    ensures s.verdict != Narrowed
    ensures s.verdict == Entered <==> |Pending(g[r][c])| == 1
    ensures s.verdict == Unchanged ==> s.grid == g && s.report == Initial(NakedSingle)
    ensures s.verdict == Entered ==> var v := Pending(g[r][c])[0];
      v in g[r][c].possibleValues && v != 0 &&
      s.report == Report(r, c, ChangedTo(v), "Naked Single") &&
      WellFormed(sh, s.grid) && s.grid[r][c] == g[r][c].(content := v, algorithmEntered := true) &&
      forall a, b | InGrid(sh, a, b) && (a != r || b != c) ::
        s.grid[a][b] == if Peer(sh, r, c, a, b) && Open(g[a][b]) then Struck(g[a][b], v) else g[a][b]
    ensures GridOk(sh, s.grid) && KeepsZero(sh, g, s.grid)
  {
    var x := g[r][c];
    PendingOk(x);
    var p := Pending(x);
    if |p| == 1 then
      assert p[0] in p;
      var g1 := Put(sh, g, r, c, x.(content := p[0]));
      var g2 := StruckPeers(sh, g1, r, c, p[0]);
      var g3 := Put(sh, g2, r, c, g2[r][c].(algorithmEntered := true));
      assert GridOk(sh, g3) && KeepsZero(sh, g, g3) by {
        forall a, b | InGrid(sh, a, b) ensures ListsOk(g3[a][b]) && (0 in g[a][b].updated ==> 0 in g3[a][b].updated) {
          assert ListsOk(g[a][b]);
          if Peer(sh, r, c, a, b) && Stricken(r, c, g1[a][b]) {
            StruckOk(g1[a][b], p[0]);
            WithoutMembership(g1[a][b].updated, p[0]);
          }
        }
      }
      Step(g3, Entered, Report(r, c, ChangedTo(p[0]), "Naked Single"))
    else
      Step(g, Unchanged, Initial(NakedSingle))
  }

  /// `Search`: the grid, the verdict and the report are those of `Searched`.
  method Search(p: Puzzle, r: int, c: int) returns (verdict: Verdict, report: Report)
    requires p.Valid() && InGrid(p.shape, r, c) && Open(p.grid[r][c])
    modifies p
    ensures p.shape == old(p.shape) && p.symbols == old(p.symbols) && p.Valid()
    ensures Step(p.grid, verdict, report) == Searched(p.shape, old(p.grid), r, c)
  {
    report := Initial(NakedSingle);
    var x := p.grid[r][c];
    PendingOk(x);
    var possibles := Pending(x);
    if |possibles| == 1 {
      assert possibles[0] in possibles;
      report := Report(r, c, ChangedTo(possibles[0]), report.name);
      assert ListsOk(x);
      PutKeepsOk(p.shape, p.grid, r, c, x.(content := possibles[0]));
      p.grid := Put(p.shape, p.grid, r, c, x.(content := possibles[0]));
      p.StrikeFromPeers(r, c, possibles[0]);
      assert ListsOk(p.grid[r][c]);
      PutKeepsOk(p.shape, p.grid, r, c, p.grid[r][c].(algorithmEntered := true));
      p.grid := Put(p.shape, p.grid, r, c, p.grid[r][c].(algorithmEntered := true));
      verdict := Entered;
    } else {
      verdict := Unchanged;
    }
  }
}
