/// `Solver`: the deduction loop that runs the algorithms over the open cells
/// pass after pass, the brute-force fallback, the trail of what each cell's
/// value came from, and hints copied from a solved grid.
module Solving {
  import opened Wrappers
  import opened Lists
  import opened Cells
  import opened Relations
  import opened Puzzles
  import opened Algorithms
  import opened Numerals
  import Checks
  import NakedSingleAlgorithm
  import HiddenSingleAlgorithm
  import NakedCandidatesAlgorithm
  import HiddenCandidatesAlgorithm
  import PointersAlgorithm
  import BoxLineReductionAlgorithm
  import BruteForceSearch

  /// A cell's coordinates; they stand for the dictionary key "row,column".
  type Pos = (int, int)

  /// One line of a cell's trail: the report of the algorithm that entered or
  /// narrowed it, or the brute-force line naming the code it wrote.
  datatype Entry = Used(report: Report) | Guessed(row: int, column: int, value: int)

  /// `pCompletedPuzzleDictionary`: for each cell, its lines in order.
  type Trail = map<Pos, seq<Entry>>

  /// A fresh instance of algorithm k searching the open cell at (r, c).
  function Searched(k: Kind, sh: Shape, g: Grid, r: int, c: int): Step
    requires GridOk(sh, g) && InGrid(sh, r, c) && Open(g[r][c])
  {
    match k
    case NakedSingle => NakedSingleAlgorithm.Searched(sh, g, r, c)
    case HiddenSingle => HiddenSingleAlgorithm.Searched(sh, g, r, c)
    case NakedCandidates => NakedCandidatesAlgorithm.Searched(sh, g, r, c)
    case HiddenCandidates => HiddenCandidatesAlgorithm.Searched(sh, g, r, c)
    case Pointers => PointersAlgorithm.Searched(sh, g, r, c)
    case BoxLineReduction => BoxLineReductionAlgorithm.Searched(sh, g, r, c)
  }

  /// `Activator.CreateInstance(m_Algorithms[i])` followed by `Search(cell)`.
  method RunSearch(k: Kind, p: Puzzle, r: int, c: int) returns (verdict: Verdict, report: Report)
    requires p.Valid() && InGrid(p.shape, r, c) && Open(p.grid[r][c])
    modifies p
    ensures p.shape == old(p.shape) && p.symbols == old(p.symbols) && p.Valid()
    ensures Step(p.grid, verdict, report) == Searched(k, p.shape, old(p.grid), r, c)
  {
    match k
    case NakedSingle => verdict, report := NakedSingleAlgorithm.Search(p, r, c);
    case HiddenSingle => verdict, report := HiddenSingleAlgorithm.Search(p, r, c);
    case NakedCandidates => verdict, report := NakedCandidatesAlgorithm.Search(p, r, c);
    case HiddenCandidates => verdict, report := HiddenCandidatesAlgorithm.Search(p, r, c);
    case Pointers => verdict, report := PointersAlgorithm.Search(p, r, c);
    case BoxLineReduction => verdict, report := BoxLineReductionAlgorithm.Search(p, r, c);
  }

  /// h's cell at (a, b) is g's apart from the working list.
  predicate Kept(sh: Shape, g: Grid, h: Grid, a: int, b: int)
    requires WellFormed(sh, g) && WellFormed(sh, h) && InGrid(sh, a, b)
  {
    h[a][b] == g[a][b].(updated := h[a][b].updated)
  }

  /// What any search at the open cell (r, c) may do: keep the lists well
  /// formed and code 0 in the working lists; change nothing when it answers
  /// `false`; enter a code only at (r, c), which is then no longer open; and
  /// leave every other cell as it was apart from its working list.
  ghost predicate StepOk(sh: Shape, g: Grid, r: int, c: int, s: Step)
    requires GridOk(sh, g) && InGrid(sh, r, c)
  {
    GridOk(sh, s.grid) && KeepsZero(sh, g, s.grid) &&
    (s.verdict == Unchanged ==> s.grid == g) &&
    (s.verdict == Entered ==> !Open(s.grid[r][c])) &&
    (s.verdict != Entered ==> Kept(sh, g, s.grid, r, c)) &&
    forall a, b | InGrid(sh, a, b) && (a != r || b != c) :: Kept(sh, g, s.grid, a, b)
  }

  /// Whatever algorithm runs, the search is well behaved, and only Naked
  /// Single enters a code.
  lemma SearchedFacts(k: Kind, sh: Shape, g: Grid, r: int, c: int)
    requires GridOk(sh, g) && InGrid(sh, r, c) && Open(g[r][c])
    ensures StepOk(sh, g, r, c, Searched(k, sh, g, r, c))
    ensures Searched(k, sh, g, r, c).verdict == Entered ==> k == NakedSingle
  {
    match k
    case NakedSingle => NakedSingleOk(sh, g, r, c);
    case HiddenSingle => HiddenSingleOk(sh, g, r, c);
    case NakedCandidates => NarrowingOk(sh, g, r, c, NakedCandidatesAlgorithm.Searched(sh, g, r, c));
    case HiddenCandidates => NarrowingOk(sh, g, r, c, HiddenCandidatesAlgorithm.Searched(sh, g, r, c));
    case Pointers => NarrowingOk(sh, g, r, c, PointersAlgorithm.Searched(sh, g, r, c));
    case BoxLineReduction => NarrowingOk(sh, g, r, c, BoxLineReductionAlgorithm.Searched(sh, g, r, c));
  }

  lemma NakedSingleOk(sh: Shape, g: Grid, r: int, c: int)
    requires GridOk(sh, g) && InGrid(sh, r, c) && Open(g[r][c])
    ensures StepOk(sh, g, r, c, NakedSingleAlgorithm.Searched(sh, g, r, c))
  {
    var s := NakedSingleAlgorithm.Searched(sh, g, r, c);
    if s.verdict == Entered {
      var v := Pending(g[r][c])[0];
      forall a, b | InGrid(sh, a, b) && (a != r || b != c) ensures Kept(sh, g, s.grid, a, b) {
        if Peer(sh, r, c, a, b) && Open(g[a][b]) {
          assert s.grid[a][b] == Struck(g[a][b], v);
        }
      }
    }
  }

  lemma HiddenSingleOk(sh: Shape, g: Grid, r: int, c: int)
    requires GridOk(sh, g) && InGrid(sh, r, c) && Open(g[r][c])
    ensures StepOk(sh, g, r, c, HiddenSingleAlgorithm.Searched(sh, g, r, c))
  {
    var s := HiddenSingleAlgorithm.Searched(sh, g, r, c);
    if s.verdict == Narrowed {
      var v := HiddenSingleAlgorithm.Found(sh, g, r, c).value;
      forall a, b | InGrid(sh, a, b) && (a != r || b != c) ensures Kept(sh, g, s.grid, a, b) {
        if Peer(sh, r, c, a, b) && Open(g[a][b]) {
          assert s.grid[a][b] == Struck(g[a][b], v);
        }
      }
    }
  }

  /// The four narrowing algorithms change working lists only.
  lemma NarrowingOk(sh: Shape, g: Grid, r: int, c: int, s: Step)
    requires GridOk(sh, g) && InGrid(sh, r, c)
    requires GridOk(sh, s.grid) && Narrowing(sh, g, s.grid) && KeepsZero(sh, g, s.grid)
    requires s.verdict != Entered && (s.verdict == Unchanged ==> s.grid == g)
    ensures StepOk(sh, g, r, c, s)
  {
  }

  /// The trail after a search at pos answered `verdict`: on `true` the line
  /// is appended to the cell's lines (or starts them), on `null` it starts
  /// them unless the cell has some already, on `false` nothing is written.
  function Logged(t: Trail, pos: Pos, verdict: Verdict, e: Entry): (u: Trail)
    ensures u.Keys == if verdict == Unchanged then t.Keys else t.Keys + {pos}
    ensures forall q | q in t :: t[q] <= u[q]
    ensures verdict == Entered ==> pos in u && |u[pos]| > 0 && u[pos][|u[pos]| - 1] == e
    ensures verdict == Narrowed && pos !in t ==> u[pos] == [e]
    ensures (forall q | q in t :: t[q] != []) ==> forall q | q in u :: u[q] != []
  {
    match verdict
    case Entered => t[pos := (if pos in t then t[pos] else []) + [e]]
    case Narrowed => if pos in t then t else t[pos := [e]]
    case Unchanged => t
  }

  /// What one pass has gathered so far: the grid, the trail, the cells at
  /// which a code was entered (`cellsToRemove`), and whether the current
  /// algorithm found anything.
  datatype Gathered = Gathered(grid: Grid, trail: Trail, entered: seq<Pos>, found: bool)

  /// The body of the `foreach` over the open cells: the search at pos
  /// answered s.
  function Visit(acc: Gathered, pos: Pos, s: Step): Gathered
  {
    Gathered(s.grid, Logged(acc.trail, pos, s.verdict, Used(s.report)),
      if s.verdict == Entered then acc.entered + [pos] else acc.entered,
      acc.found || s.verdict != Unchanged)
  }

  /// The open-cell list: distinct cells of the grid, each of them open.
  predicate Ready(sh: Shape, g: Grid, open: seq<Pos>)
  {
    GridOk(sh, g) && NoDups(open) &&
    forall n | 0 <= n < |open| :: InGrid(sh, open[n].0, open[n].1) && Open(g[open[n].0][open[n].1])
  }

  /// Algorithm k run over the first i cells of the open list, from `start`,
  /// has left s: only the cells it entered a code at, all on the list before
  /// position i, changed more than their working lists, and those are no
  /// longer open; if it found nothing, nothing changed.
  ghost predicate SweptGrid(sh: Shape, open: seq<Pos>, i: nat, start: Gathered, s: Gathered)
    requires Ready(sh, start.grid, open) && i <= |open|
  {
    GridOk(sh, s.grid) && KeepsZero(sh, start.grid, s.grid) &&
    (forall q | q in s.entered :: q in open) &&
    (forall n | i <= n < |open| :: open[n] !in s.entered) &&
    (forall a, b | InGrid(sh, a, b) && (a, b) !in s.entered :: Kept(sh, start.grid, s.grid, a, b)) &&
    (forall q | q in s.entered :: !Open(s.grid[q.0][q.1])) &&
    (!s.found ==> s.grid == start.grid && s.trail == start.trail && s.entered == [])
  }

  /// ... and the trail only grew, and only at cells of the open list.
  ghost predicate SweptTrail(open: seq<Pos>, start: Gathered, s: Gathered)
  {
    (forall q | q in s.trail && q !in start.trail :: q in open) &&
    (forall q | q in start.trail :: q in s.trail && start.trail[q] <= s.trail[q]) &&
    ((forall q | q in start.trail :: start.trail[q] != []) ==> forall q | q in s.trail :: s.trail[q] != [])
  }

  /// One more cell visited keeps `SweptGrid`.
  lemma VisitGrid(sh: Shape, open: seq<Pos>, i: nat, start: Gathered, acc: Gathered, s: Step)
    requires Ready(sh, start.grid, open) && 0 < i <= |open|
    requires SweptGrid(sh, open, i - 1, start, acc)
    requires var q := open[i - 1]; InGrid(sh, q.0, q.1) && StepOk(sh, acc.grid, q.0, q.1, s)
    ensures SweptGrid(sh, open, i, start, Visit(acc, open[i - 1], s))
  {
    var q := open[i - 1];
    var w := Visit(acc, q, s);
    assert forall n | i <= n < |open| :: open[n] !in w.entered by {
      forall n | i <= n < |open| ensures open[n] != q { }
    }
    VisitKept(sh, start.grid, acc, q, s);
    VisitEntered(sh, open, i, acc, s);
    KeepsZeroChain(sh, start.grid, acc.grid, w.grid);
  }

  /// The cells `Visit` did not add to the entered list keep all but their
  /// working lists.
  lemma VisitKept(sh: Shape, g0: Grid, acc: Gathered, q: Pos, s: Step)
    requires WellFormed(sh, g0) && GridOk(sh, acc.grid) && InGrid(sh, q.0, q.1) && q !in acc.entered
    requires forall a, b | InGrid(sh, a, b) && (a, b) !in acc.entered :: Kept(sh, g0, acc.grid, a, b)
    requires StepOk(sh, acc.grid, q.0, q.1, s)
    ensures var w := Visit(acc, q, s);
      forall a, b | InGrid(sh, a, b) && (a, b) !in w.entered :: Kept(sh, g0, w.grid, a, b)
  {
    var w := Visit(acc, q, s);
    forall a, b | InGrid(sh, a, b) && (a, b) !in w.entered ensures Kept(sh, g0, w.grid, a, b) {
      assert Kept(sh, g0, acc.grid, a, b);
      assert Kept(sh, acc.grid, w.grid, a, b);
    }
  }

  /// The cells on the entered list after `Visit` are on the open list and
  /// no longer open.
  lemma VisitEntered(sh: Shape, open: seq<Pos>, i: nat, acc: Gathered, s: Step)
    requires 0 < i <= |open| && forall n | 0 <= n < |open| :: InGrid(sh, open[n].0, open[n].1)
    requires GridOk(sh, acc.grid) && open[i - 1] !in acc.entered
    requires forall x | x in acc.entered :: x in open
    requires forall x | x in acc.entered :: InGrid(sh, x.0, x.1) && !Open(acc.grid[x.0][x.1])
    requires StepOk(sh, acc.grid, open[i - 1].0, open[i - 1].1, s)
    ensures var w := Visit(acc, open[i - 1], s);
      forall x | x in w.entered :: x in open && !Open(w.grid[x.0][x.1])
  {
    var q := open[i - 1];
    var w := Visit(acc, q, s);
    forall x | x in w.entered ensures x in open && !Open(w.grid[x.0][x.1]) {
      if x != q {
        assert x in acc.entered;
        assert Kept(sh, acc.grid, w.grid, x.0, x.1);
      }
    }
  }

  /// One more cell visited keeps `SweptTrail`.
  lemma VisitTrail(open: seq<Pos>, i: nat, start: Gathered, acc: Gathered, s: Step)
    requires 0 < i <= |open| && SweptTrail(open, start, acc)
    ensures SweptTrail(open, start, Visit(acc, open[i - 1], s))
  {
    var u := Visit(acc, open[i - 1], s).trail;
    forall x | x in start.trail ensures x in u && start.trail[x] <= u[x] {
      assert acc.trail[x] <= u[x];
    }
  }

  /// Algorithm k run over the first i cells of the open list.
  function Swept(k: Kind, sh: Shape, open: seq<Pos>, i: nat, start: Gathered): (s: Gathered)
    requires Ready(sh, start.grid, open) && start.entered == [] && !start.found && i <= |open|
    ensures SweptGrid(sh, open, i, start, s) && SweptTrail(open, start, s)
    decreases i
  {
    if i == 0 then start
    else
      var acc := Swept(k, sh, open, i - 1, start);
      var q := open[i - 1];
      assert InGrid(sh, q.0, q.1) && Open(acc.grid[q.0][q.1]) by {
        assert Kept(sh, start.grid, acc.grid, q.0, q.1);
      }
      SearchedFacts(k, sh, acc.grid, q.0, q.1);
      var s := Searched(k, sh, acc.grid, q.0, q.1);
      VisitGrid(sh, open, i, start, acc, s);
      VisitTrail(open, i, start, acc, s);
      Visit(acc, q, s)
  }

  /// One pass of the `for` over the algorithms: each in turn sweeps the open
  /// list, and the first that finds something ends the pass.
  function Passed(sh: Shape, open: seq<Pos>, ks: seq<Kind>, acc: Gathered): (s: Gathered)
    requires Ready(sh, acc.grid, open) && acc.entered == [] && !acc.found
    ensures SweptGrid(sh, open, |open|, acc, s) && SweptTrail(open, acc, s)
    decreases |ks|
  {
    if ks == [] then acc
    else
      var s := Swept(ks[0], sh, open, |open|, acc);
      if s.found then s else Passed(sh, open, ks[1..], s)
  }

  /// The index in ks of the first algorithm whose sweep finds something,
  /// or |ks| when none does.
  function FirstFinding(sh: Shape, open: seq<Pos>, ks: seq<Kind>, acc: Gathered): nat
    requires Ready(sh, acc.grid, open) && acc.entered == [] && !acc.found
    decreases |ks|
  {
    if ks == [] then 0
    else if Swept(ks[0], sh, open, |open|, acc).found then 0
    else 1 + FirstFinding(sh, open, ks[1..], acc)
  }

  /// A pass ends with the sweep of the first algorithm in the list that
  /// finds something, no earlier one having found anything; when none finds
  /// anything, the pass changes nothing.
  lemma {:induction false} PassedFirst(sh: Shape, open: seq<Pos>, ks: seq<Kind>, acc: Gathered)
    requires Ready(sh, acc.grid, open) && acc.entered == [] && !acc.found
    ensures var j := FirstFinding(sh, open, ks, acc);
      j <= |ks| &&
      (forall n | 0 <= n < j :: !Swept(ks[n], sh, open, |open|, acc).found) &&
      (j < |ks| ==>
        Swept(ks[j], sh, open, |open|, acc).found &&
        Passed(sh, open, ks, acc) == Swept(ks[j], sh, open, |open|, acc)) &&
      (j == |ks| ==> Passed(sh, open, ks, acc) == acc)
    decreases |ks|
  {
    if ks != [] {
      var s := Swept(ks[0], sh, open, |open|, acc);
      if !s.found {
        assert s == acc by {
          assert s.grid == acc.grid && s.trail == acc.trail && s.entered == [];
        }
        assert Passed(sh, open, ks, acc) == Passed(sh, open, ks[1..], acc);
        PassedFirst(sh, open, ks[1..], acc);
        var j := FirstFinding(sh, open, ks[1..], acc);
        assert FirstFinding(sh, open, ks, acc) == j + 1;
        forall n | 0 <= n < j + 1 ensures !Swept(ks[n], sh, open, |open|, acc).found {
          if n > 0 {
            var k := ks[1..][n - 1];
            assert !Swept(k, sh, open, |open|, acc).found;
            assert ks[n] == k;
          }
        }
        if j < |ks| - 1 {
          assert ks[j + 1] == ks[1..][j];
        }
      }
    }
  }

  /// The commit after a pass that found something: every cell of the open
  /// list takes its working list as its candidate list.
  function Committed(sh: Shape, g: Grid, open: seq<Pos>): (h: Grid)
    requires WellFormed(sh, g)
  {
    seq(sh.size, a requires 0 <= a < sh.size =>
      seq(sh.size, b requires 0 <= b < sh.size =>
        if (a, b) in open then g[a][b].(possibleValues := g[a][b].updated) else g[a][b]))
  }

  /// Committing keeps the grid's shape.
  lemma CommittedShape(sh: Shape, g: Grid, open: seq<Pos>)
    requires WellFormed(sh, g)
    ensures WellFormed(sh, Committed(sh, g, open))
  {
  }

  /// Committing keeps the grid well formed when every cell of the open list
  /// still has code 0 in its working list; only the candidate lists of the
  /// open-list cells change.
  lemma CommitOk(sh: Shape, g: Grid, open: seq<Pos>)
    requires GridOk(sh, g)
    requires forall n | 0 <= n < |open| :: InGrid(sh, open[n].0, open[n].1) && 0 in g[open[n].0][open[n].1].updated
    ensures var h := Committed(sh, g, open);
      GridOk(sh, h) &&
      forall a, b | InGrid(sh, a, b) ::
        h[a][b] == g[a][b].(possibleValues := h[a][b].possibleValues) &&
        ((a, b) in open ==> h[a][b].possibleValues == g[a][b].updated) &&
        ((a, b) !in open ==> h[a][b] == g[a][b])
  {
    var h := Committed(sh, g, open);
    forall a, b | InGrid(sh, a, b) ensures ListsOk(h[a][b]) {
      assert ListsOk(g[a][b]);
      if (a, b) in open {
        var n :| 0 <= n < |open| && open[n] == (a, b);
        assert 0 in g[a][b].updated;
      }
    }
  }

  /// `possibleCells.Remove(cell)` for each cell of `cellsToRemove`, in order.
  function Removed(open: seq<Pos>, entered: seq<Pos>): seq<Pos>
    decreases |entered|
  {
    if entered == [] then open
    else RemoveFirst(Removed(open, entered[..|entered| - 1]), entered[|entered| - 1])
  }

  /// Removing from a list without duplicates leaves exactly the cells that
  /// were not entered, still without duplicates.
  lemma {:induction false} RemovedMembers(open: seq<Pos>, entered: seq<Pos>)
    requires NoDups(open)
    ensures NoDups(Removed(open, entered))
    ensures forall q :: q in Removed(open, entered) <==> q in open && q !in entered
    decreases |entered|
  {
    if entered != [] {
      var init, x := entered[..|entered| - 1], entered[|entered| - 1];
      RemovedMembers(open, init);
      var r := Removed(open, init);
      RemoveFirstIsWithout(r, x);
      WithoutNoDups(r, x);
      assert entered == init + [x];
      forall q | q in open ensures q in Removed(open, entered) <==> q !in entered {
        RemovedAt(r, x, q);
      }
      forall q | q in Removed(open, entered) ensures q in open {
        RemovedAt(r, x, q);
      }
    }
  }

  /// One removal, about one cell.
  lemma RemovedAt(r: seq<Pos>, x: Pos, q: Pos)
    ensures q in Without(r, x) <==> q in r && q != x
  {
    WithoutMembership(r, x);
  }

  /// What the deduction loop keeps: `possibleCells` lists, once each, exactly
  /// the open cells of the grid, and each of them is empty and has code 0 in
  /// its working list.
  ghost predicate Inv(sh: Shape, g: Grid, open: seq<Pos>)
  {
    Ready(sh, g, open) &&
    (forall a, b | InGrid(sh, a, b) && Open(g[a][b]) :: (a, b) in open) &&
    (forall n | 0 <= n < |open| :: g[open[n].0][open[n].1].content == 0 && 0 in g[open[n].0][open[n].1].updated)
  }

  /// A pass that found something, then the commit and the removal of the
  /// entered cells, keep `Inv`; the cells off the list keep their content
  /// and flags.
  lemma PassInv(sh: Shape, g: Grid, open: seq<Pos>, t: Trail, s: Gathered)
    requires Inv(sh, g, open)
    requires SweptGrid(sh, open, |open|, Gathered(g, t, [], false), s)
    ensures var h := Committed(sh, s.grid, open);
      Inv(sh, h, Removed(open, s.entered)) &&
      forall a, b | InGrid(sh, a, b) && !Open(g[a][b]) :: Kept(sh, g, s.grid, a, b) && h[a][b] == s.grid[a][b]
  {
    var h := Committed(sh, s.grid, open);
    var rest := Removed(open, s.entered);
    forall n | 0 <= n < |open| ensures InGrid(sh, open[n].0, open[n].1) && 0 in s.grid[open[n].0][open[n].1].updated {
      assert 0 in g[open[n].0][open[n].1].updated;
    }
    CommitOk(sh, s.grid, open);
    RemovedMembers(open, s.entered);
    RestOpen(sh, g, open, t, s);
    forall a, b | InGrid(sh, a, b) && Open(h[a][b]) ensures (a, b) in rest {
      if (a, b) !in s.entered {
        assert Kept(sh, g, s.grid, a, b);
      }
    }
    OffListKept(sh, g, open, t, s);
  }

  /// The cells left on the list are still open after the commit and still
  /// have code 0 in their working lists.
  lemma RestOpen(sh: Shape, g: Grid, open: seq<Pos>, t: Trail, s: Gathered)
    requires Inv(sh, g, open)
    requires SweptGrid(sh, open, |open|, Gathered(g, t, [], false), s)
    requires forall q :: q in Removed(open, s.entered) <==> q in open && q !in s.entered
    ensures var h, rest := Committed(sh, s.grid, open), Removed(open, s.entered);
      forall n | 0 <= n < |rest| ::
        InGrid(sh, rest[n].0, rest[n].1) && Open(h[rest[n].0][rest[n].1]) &&
        h[rest[n].0][rest[n].1].content == 0 && 0 in h[rest[n].0][rest[n].1].updated
  {
    var h, rest := Committed(sh, s.grid, open), Removed(open, s.entered);
    forall n | 0 <= n < |rest| ensures InGrid(sh, rest[n].0, rest[n].1) && Open(h[rest[n].0][rest[n].1]) &&
      h[rest[n].0][rest[n].1].content == 0 && 0 in h[rest[n].0][rest[n].1].updated
    {
      var q := rest[n];
      assert q in rest;
      var m :| 0 <= m < |open| && open[m] == q;
      assert Kept(sh, g, s.grid, q.0, q.1);
      assert 0 in g[q.0][q.1].updated && g[q.0][q.1].content == 0;
    }
  }

  /// The cells that were not open are on neither list, so neither the sweep
  /// nor the commit touches more than their working lists.
  lemma OffListKept(sh: Shape, g: Grid, open: seq<Pos>, t: Trail, s: Gathered)
    requires Inv(sh, g, open)
    requires SweptGrid(sh, open, |open|, Gathered(g, t, [], false), s)
    ensures var h := Committed(sh, s.grid, open);
      forall a, b | InGrid(sh, a, b) && !Open(g[a][b]) :: Kept(sh, g, s.grid, a, b) && h[a][b] == s.grid[a][b]
  {
    forall a, b | InGrid(sh, a, b) && !Open(g[a][b])
      ensures (a, b) !in open && Kept(sh, g, s.grid, a, b)
    {
      assert forall n | 0 <= n < |open| :: open[n] != (a, b);
    }
  }

  /// The state of the `while` loop: the grid, `possibleCells`, the trail and
  /// `counter`.
  datatype Deduction = Deduction(grid: Grid, open: seq<Pos>, trail: Trail, passes: nat)

  /// The pass the loop makes from state d.
  function NextPass(sh: Shape, d: Deduction): Gathered
    requires Inv(sh, d.grid, d.open)
  {
    Passed(sh, d.open, Order, Gathered(d.grid, d.trail, [], false))
  }

  /// The `while` loop: passes go on while cells are open and fewer than 100
  /// passes were made; a pass that finds nothing ends it; otherwise the
  /// working lists are committed and the entered cells leave the list.
  function Deduced(sh: Shape, d: Deduction): (e: Deduction)
    requires Inv(sh, d.grid, d.open) && d.passes <= 100
    ensures Inv(sh, e.grid, e.open) && d.passes <= e.passes <= 100
    decreases 100 - d.passes
  {
    if d.open == [] || d.passes >= 100 then d
    else
      var s := NextPass(sh, d);
      if !s.found then
        assert s.grid == d.grid;
        d.(grid := s.grid, trail := s.trail)
      else
        AfterFacts(sh, d);
        Deduced(sh, After(sh, d))
  }

  /// The state after the pass from d, when that pass found something.
  function After(sh: Shape, d: Deduction): Deduction
    requires Inv(sh, d.grid, d.open)
  {
    var s := NextPass(sh, d);
    Deduction(Committed(sh, s.grid, d.open), Removed(d.open, s.entered), s.trail, d.passes + 1)
  }

  /// One pass that found something: `Inv` is kept, the cells that were not
  /// open keep all but their working lists, the open list shrinks, and the
  /// trail grows only at cells of the open list.
  lemma AfterFacts(sh: Shape, d: Deduction)
    requires Inv(sh, d.grid, d.open) && NextPass(sh, d).found
    ensures var e := After(sh, d);
      Inv(sh, e.grid, e.open) &&
      (forall a, b | InGrid(sh, a, b) && !Open(d.grid[a][b]) :: Kept(sh, d.grid, e.grid, a, b) && !Open(e.grid[a][b])) &&
      (forall q | q in e.open :: q in d.open) &&
      (forall q | q in d.trail :: q in e.trail && d.trail[q] <= e.trail[q]) &&
      (forall q | q in e.trail && q !in d.trail :: q in d.open) &&
      ((forall q | q in d.trail :: d.trail[q] != []) ==> forall q | q in e.trail :: e.trail[q] != [])
  {
    var s := NextPass(sh, d);
    PassInv(sh, d.grid, d.open, d.trail, s);
    RemovedMembers(d.open, s.entered);
  }

  /// The loop ends with no open cell left, the limit of 100 passes
  /// reached, or a pass that finds nothing.
  lemma {:induction false} DeducedEnd(sh: Shape, d: Deduction)
    requires Inv(sh, d.grid, d.open) && d.passes <= 100
    ensures var e := Deduced(sh, d);
      e.open == [] || e.passes == 100 || !NextPass(sh, e).found
    decreases 100 - d.passes
  {
    if !(d.open == [] || d.passes >= 100) && NextPass(sh, d).found {
      AfterFacts(sh, d);
      DeducedEnd(sh, After(sh, d));
    }
  }

  /// The cells of g that are not open are, in h, kept but for their working
  /// lists.
  ghost predicate KeptClosed(sh: Shape, g: Grid, h: Grid)
  {
    WellFormed(sh, g) && WellFormed(sh, h) &&
    forall a, b | InGrid(sh, a, b) && !Open(g[a][b]) :: Kept(sh, g, h, a, b)
  }

  lemma KeptClosedChain(sh: Shape, g0: Grid, g1: Grid, g2: Grid)
    requires KeptClosed(sh, g0, g1) && KeptClosed(sh, g1, g2)
    ensures KeptClosed(sh, g0, g2)
  {
    forall a, b | InGrid(sh, a, b) && !Open(g0[a][b]) ensures Kept(sh, g0, g2, a, b) {
      assert Kept(sh, g0, g1, a, b);
      assert Kept(sh, g1, g2, a, b);
    }
  }

  /// Over the whole loop, the cells that were not open keep all but their
  /// working lists, and the open list only shrinks.
  lemma {:induction false} DeducedKept(sh: Shape, d: Deduction)
    requires Inv(sh, d.grid, d.open) && d.passes <= 100
    ensures var e := Deduced(sh, d);
      KeptClosed(sh, d.grid, e.grid) && forall q | q in e.open :: q in d.open
    decreases 100 - d.passes
  {
    if !(d.open == [] || d.passes >= 100) && NextPass(sh, d).found {
      var d' := After(sh, d);
      AfterKept(sh, d);
      DeducedKept(sh, d');
      KeptClosedChain(sh, d.grid, d'.grid, Deduced(sh, d').grid);
    }
  }

  /// The part of `AfterFacts` that `DeducedKept` needs.
  lemma AfterKept(sh: Shape, d: Deduction)
    requires Inv(sh, d.grid, d.open) && NextPass(sh, d).found
    ensures var e := After(sh, d);
      Inv(sh, e.grid, e.open) && KeptClosed(sh, d.grid, e.grid) && forall q | q in e.open :: q in d.open
  {
    AfterFacts(sh, d);
  }

  /// Over the whole loop the trail only grows, only at cells of the open
  /// list, and every cell on it has at least one line.
  lemma {:induction false} DeducedTrail(sh: Shape, d: Deduction, open0: seq<Pos>)
    requires Inv(sh, d.grid, d.open) && d.passes <= 100
    requires forall q | q in d.open :: q in open0
    requires forall q | q in d.trail :: q in open0 && d.trail[q] != []
    ensures var e := Deduced(sh, d);
      (forall q | q in d.trail :: q in e.trail && d.trail[q] <= e.trail[q]) &&
      (forall q | q in e.trail :: q in open0 && e.trail[q] != [])
    decreases 100 - d.passes
  {
    if !(d.open == [] || d.passes >= 100) {
      if NextPass(sh, d).found {
        var d' := After(sh, d);
        AfterFacts(sh, d);
        DeducedTrail(sh, d', open0);
        var e := Deduced(sh, d');
        forall q | q in d.trail ensures q in e.trail && d.trail[q] <= e.trail[q] {
          assert d.trail[q] <= d'.trail[q];
        }
      }
    }
  }

  /// The cells of the first i rows of an n-column grid, then the first j
  /// cells of row i, in row-major order.
  function Scanned(n: nat, i: nat, j: nat): seq<Pos>
    decreases i, j
  {
    if j > 0 then Scanned(n, i, j - 1) + [(i, j - 1)]
    else if i > 0 then Scanned(n, i - 1, n)
    else []
  }

  /// Exactly those cells, each once.
  lemma {:induction false} ScannedMembers(n: nat, i: nat, j: nat)
    requires j <= n
    ensures NoDups(Scanned(n, i, j))
    ensures forall q :: q in Scanned(n, i, j) <==> (0 <= q.0 < i && 0 <= q.1 < n) || (q.0 == i && 0 <= q.1 < j)
    decreases i, j
  {
    if j > 0 {
      ScannedMembers(n, i, j - 1);
      var s := Scanned(n, i, j - 1);
      var t := s + [(i, j - 1)];
      forall a, b | 0 <= a < b < |t| ensures t[a] != t[b] {
        if b == |s| {
          assert t[a] == s[a] && s[a] in s;
        } else {
          assert t[a] == s[a] && t[b] == s[b];
        }
      }
    } else if i > 0 {
      ScannedMembers(n, i - 1, n);
    }
  }

  /// Every cell of ps lies in the grid.
  predicate AllIn(sh: Shape, ps: seq<Pos>)
  {
    forall n | 0 <= n < |ps| :: InGrid(sh, ps[n].0, ps[n].1)
  }

  /// The cells scanned before (i, j) lie in the grid.
  lemma ScannedIn(sh: Shape, i: nat, j: nat)
    requires sh.Valid() && j <= sh.size && (i < sh.size || (i == sh.size && j == 0))
    ensures AllIn(sh, Scanned(sh.size, i, j))
  {
    ScannedMembers(sh.size, i, j);
    var ps := Scanned(sh.size, i, j);
    forall n | 0 <= n < |ps| ensures InGrid(sh, ps[n].0, ps[n].1) {
      assert ps[n] in ps;
    }
  }

  /// The cells of ps that are open in g, in order (`possibleCells`).
  function Opens(sh: Shape, g: Grid, ps: seq<Pos>): seq<Pos>
    requires WellFormed(sh, g) && forall n | 0 <= n < |ps| :: InGrid(sh, ps[n].0, ps[n].1)
    decreases |ps|
  {
    if ps == [] then []
    else
      var q := ps[|ps| - 1];
      assert InGrid(sh, q.0, q.1);
      Opens(sh, g, ps[..|ps| - 1]) + if Open(g[q.0][q.1]) then [q] else []
  }

  /// `Opens` keeps exactly the open cells of ps, each once when ps has each
  /// once.
  lemma {:induction false} OpensMembers(sh: Shape, g: Grid, ps: seq<Pos>)
    requires WellFormed(sh, g) && forall n | 0 <= n < |ps| :: InGrid(sh, ps[n].0, ps[n].1)
    ensures forall q :: q in Opens(sh, g, ps) <==> q in ps && Open(g[q.0][q.1])
    ensures NoDups(ps) ==> NoDups(Opens(sh, g, ps))
    decreases |ps|
  {
    if ps != [] {
      var init, q := ps[..|ps| - 1], ps[|ps| - 1];
      OpensMembers(sh, g, init);
      assert ps == init + [q];
      var o := Opens(sh, g, init);
      if NoDups(ps) && Open(g[q.0][q.1]) {
        assert q !in init by {
          forall n | 0 <= n < |init| ensures init[n] != q { }
        }
        var t := o + [q];
        forall a, b | 0 <= a < b < |t| ensures t[a] != t[b] {
          if b == |o| {
            assert t[a] == o[a] && o[a] in o;
          } else {
            assert t[a] == o[a] && t[b] == o[b];
          }
        }
      }
    }
  }

  /// The body of the first loop for the cell at (i, j): an open cell holding
  /// a code is emptied and its peers' candidates recomputed; then an open
  /// cell's working list becomes a copy of its candidate list.
  function Prepared(sh: Shape, g: Grid, i: int, j: int): Grid
    requires GridOk(sh, g) && InGrid(sh, i, j)
  {
    if !Open(g[i][j]) then g
    else
      var g1 := Emptied(sh, g, i, j);
      Put(sh, g1, i, j, g1[i][j].(updated := g1[i][j].possibleValues))
  }

  /// `content = 0; UpdateAllPossibles()` when the open cell at (i, j) holds a
  /// code.
  function Emptied(sh: Shape, g: Grid, i: int, j: int): Grid
    requires WellFormed(sh, g) && InGrid(sh, i, j)
  {
    if g[i][j].content != 0 then RecomputedPeers(sh, Put(sh, g, i, j, g[i][j].(content := 0)), i, j) else g
  }

  /// Emptying keeps the lists well formed; only (i, j) changes content, to 0,
  /// and only candidate lists change otherwise.
  lemma EmptiedFacts(sh: Shape, g: Grid, i: int, j: int)
    requires GridOk(sh, g) && InGrid(sh, i, j)
    ensures var h := Emptied(sh, g, i, j);
      GridOk(sh, h) && h[i][j].content == 0
    ensures var h := Emptied(sh, g, i, j);
      forall a, b | InGrid(sh, a, b) ::
        h[a][b] == g[a][b].(content := h[a][b].content, possibleValues := h[a][b].possibleValues) &&
        ((a != i || b != j) ==> h[a][b].content == g[a][b].content)
  {
    if g[i][j].content != 0 {
      var g0 := Put(sh, g, i, j, g[i][j].(content := 0));
      var h := Emptied(sh, g, i, j);
      PutKeepsOk(sh, g, i, j, g[i][j].(content := 0));
      RecomputedPeersOk(sh, g0, i, j);
    }
  }

  /// The cells keep their flags; only an open (i, j) changes content, to 0;
  /// its working list then starts with code 0; the other cells keep their
  /// working lists.
  lemma PreparedFacts(sh: Shape, g: Grid, i: int, j: int)
    requires GridOk(sh, g) && InGrid(sh, i, j)
    ensures var h := Prepared(sh, g, i, j);
      GridOk(sh, h) &&
      (forall a, b | InGrid(sh, a, b) ::
        h[a][b].startPoint == g[a][b].startPoint && h[a][b].algorithmEntered == g[a][b].algorithmEntered &&
        ((a != i || b != j) ==> h[a][b].content == g[a][b].content && h[a][b].updated == g[a][b].updated)) &&
      (!Open(g[i][j]) ==> h == g) &&
      (Open(g[i][j]) ==> h[i][j].content == 0 && 0 in h[i][j].updated)
  {
    if Open(g[i][j]) {
      EmptiedFacts(sh, g, i, j);
      var g1: Grid := Emptied(sh, g, i, j);
      var x := g1[i][j].(updated := g1[i][j].possibleValues);
      assert ListsOk(g1[i][j]);
      PutKeepsOk(sh, g1, i, j, x);
      assert x.possibleValues[0] in x.updated;
    }
  }

  /// The first loop over the cells ps, in order.
  function Initialised(sh: Shape, g: Grid, ps: seq<Pos>): (h: Grid)
    requires GridOk(sh, g) && forall n | 0 <= n < |ps| :: InGrid(sh, ps[n].0, ps[n].1)
    ensures GridOk(sh, h)
    decreases |ps|
  {
    if ps == [] then g
    else
      var q := ps[|ps| - 1];
      var h := Initialised(sh, g, ps[..|ps| - 1]);
      PreparedFacts(sh, h, q.0, q.1);
      Prepared(sh, h, q.0, q.1)
  }

  /// After the first loop over ps every cell keeps its flags, and its content
  /// unless it is an open cell of ps; those are empty and have code 0 in
  /// their working lists.
  lemma {:induction false} InitialisedFacts(sh: Shape, g: Grid, ps: seq<Pos>)
    requires GridOk(sh, g) && forall n | 0 <= n < |ps| :: InGrid(sh, ps[n].0, ps[n].1)
    ensures var h := Initialised(sh, g, ps);
      forall a, b | InGrid(sh, a, b) ::
        h[a][b].startPoint == g[a][b].startPoint && h[a][b].algorithmEntered == g[a][b].algorithmEntered &&
        (!Open(g[a][b]) || (a, b) !in ps ==> h[a][b].content == g[a][b].content) &&
        (Open(g[a][b]) && (a, b) in ps ==> h[a][b].content == 0 && 0 in h[a][b].updated)
    decreases |ps|
  {
    if ps != [] {
      var init, q := ps[..|ps| - 1], ps[|ps| - 1];
      InitialisedFacts(sh, g, init);
      var h0: Grid := Initialised(sh, g, init);
      PreparedFacts(sh, h0, q.0, q.1);
      assert ps == init + [q];
      var h: Grid := Initialised(sh, g, ps);
      forall a, b | InGrid(sh, a, b)
        ensures (!Open(g[a][b]) || (a, b) !in ps ==> h[a][b].content == g[a][b].content) &&
          (Open(g[a][b]) && (a, b) in ps ==> h[a][b].content == 0 && 0 in h[a][b].updated)
      {
        if (a, b) != q {
          assert (a, b) in ps <==> (a, b) in init;
        }
      }
    }
  }

  /// The state before the `while` loop: the grid after the first loop over
  /// all cells in row-major order, and the open cells in that order.
  function Begun(sh: Shape, g: Grid): (d: Deduction)
    requires GridOk(sh, g)
    ensures Inv(sh, d.grid, d.open) && d.passes == 0 && d.trail == map[]
  {
    var all := Scanned(sh.size, sh.size, 0);
    BegunOk(sh, g);
    Deduction(Initialised(sh, g, all), Opens(sh, g, all), map[], 0)
  }

  /// The first loop visits every cell once and lists exactly the open ones,
  /// each of them now empty.
  lemma BegunOk(sh: Shape, g: Grid)
    requires GridOk(sh, g)
    ensures var all := Scanned(sh.size, sh.size, 0);
      (forall n | 0 <= n < |all| :: InGrid(sh, all[n].0, all[n].1)) &&
      (forall a, b | InGrid(sh, a, b) :: (a, b) in all) &&
      Inv(sh, Initialised(sh, g, all), Opens(sh, g, all))
  {
    var all := Scanned(sh.size, sh.size, 0);
    ScannedIn(sh, sh.size, 0);
    ScannedMembers(sh.size, sh.size, 0);
    InitialisedInv(sh, g, all);
  }

  /// A first loop over a list holding every cell once lists exactly the open
  /// cells, each of them now empty.
  lemma InitialisedInv(sh: Shape, g: Grid, all: seq<Pos>)
    requires GridOk(sh, g) && AllIn(sh, all) && NoDups(all)
    requires forall a, b | InGrid(sh, a, b) :: (a, b) in all
    ensures Inv(sh, Initialised(sh, g, all), Opens(sh, g, all))
  {
    var h, open := Initialised(sh, g, all), Opens(sh, g, all);
    OpensMembers(sh, g, all);
    InitialisedFacts(sh, g, all);
    OpensEmptied(sh, g, all);
    forall a, b | InGrid(sh, a, b) && Open(h[a][b]) ensures (a, b) in open {
      assert (a, b) in all;
    }
  }

  /// Every cell the first loop lists is open and empty, with code 0 in its
  /// working list.
  lemma OpensEmptied(sh: Shape, g: Grid, all: seq<Pos>)
    requires GridOk(sh, g) && AllIn(sh, all)
    ensures var h, open := Initialised(sh, g, all), Opens(sh, g, all);
      forall n | 0 <= n < |open| ::
        InGrid(sh, open[n].0, open[n].1) && Open(h[open[n].0][open[n].1]) &&
        h[open[n].0][open[n].1].content == 0 && 0 in h[open[n].0][open[n].1].updated
  {
    var h, open := Initialised(sh, g, all), Opens(sh, g, all);
    InitialisedFacts(sh, g, all);
    OpensMembers(sh, g, all);
    forall n | 0 <= n < |open|
      ensures InGrid(sh, open[n].0, open[n].1) && Open(h[open[n].0][open[n].1]) &&
        h[open[n].0][open[n].1].content == 0 && 0 in h[open[n].0][open[n].1].updated
    {
      assert open[n] in open;
      assert open[n] in all;
      var k :| 0 <= k < |all| && all[k] == open[n];
    }
  }

  /// The brute-force lines for the cells of open, in order, each naming the
  /// code of the solution s at that cell.
  function Guesses(sh: Shape, t: Trail, open: seq<Pos>, s: BruteForceSearch.Matrix): Trail
    requires BruteForceSearch.IsMatrix(sh, s) && forall n | 0 <= n < |open| :: InGrid(sh, open[n].0, open[n].1)
    decreases |open|
  {
    if open == [] then t
    else
      var q := open[|open| - 1];
      assert InGrid(sh, q.0, q.1);
      Logged(Guesses(sh, t, open[..|open| - 1], s), q, Entered, Guessed(q.0, q.1, s[q.0][q.1]))
  }

  /// The brute-force lines only extend the trail: each cell of a list
  /// without duplicates gets exactly one more line, naming its code in s,
  /// and no other cell changes.
  lemma {:induction false} GuessesFacts(sh: Shape, t: Trail, open: seq<Pos>, s: BruteForceSearch.Matrix)
    requires BruteForceSearch.IsMatrix(sh, s) && forall n | 0 <= n < |open| :: InGrid(sh, open[n].0, open[n].1)
    requires NoDups(open)
    ensures var u := Guesses(sh, t, open, s);
      (forall q :: q in u <==> q in t || q in open) &&
      (forall q | q in t && q !in open :: u[q] == t[q]) &&
      (forall q | q in open :: u[q] == (if q in t then t[q] else []) + [Guessed(q.0, q.1, s[q.0][q.1])])
    decreases |open|
  {
    if open != [] {
      var init, q := open[..|open| - 1], open[|open| - 1];
      assert open == init + [q];
      assert q !in init by {
        forall n | 0 <= n < |init| ensures init[n] != q { }
      }
      assert NoDups(init) by {
        forall a, b | 0 <= a < b < |init| ensures init[a] != init[b] {
          assert init[a] == open[a] && init[b] == open[b];
        }
      }
      assert forall n | 0 <= n < |init| :: InGrid(sh, init[n].0, init[n].1) by {
        forall n | 0 <= n < |init| ensures InGrid(sh, init[n].0, init[n].1) {
          assert init[n] == open[n];
        }
      }
      GuessesFacts(sh, t, init, s);
    }
  }

  /// The grid after `BruteForce.Solve(ref Puzzle)` found the unique solution
  /// s: every cell takes its code and is marked as entered.
  function Written(sh: Shape, g: Grid, s: BruteForceSearch.Matrix): (h: Grid)
    requires WellFormed(sh, g) && BruteForceSearch.IsMatrix(sh, s)
    ensures WellFormed(sh, h)
    ensures forall i, j | InGrid(sh, i, j) :: h[i][j] == BruteForceSearch.Entered(g[i][j], s[i][j])
  {
    seq(sh.size, i requires 0 <= i < sh.size =>
      seq(sh.size, j requires 0 <= j < sh.size => BruteForceSearch.Entered(g[i][j], s[i][j])))
  }

  /// The outcome of `SolvePuzzle`: the grid, the trail, and the verdict of
  /// `IsComplete`.
  datatype Finish = Finish(grid: Grid, trail: Trail, complete: bool)

  /// A fresh search records as many solutions as it counts, each of the
  /// grid's shape.
  lemma SolutionShape(sh: Shape, m: BruteForceSearch.Matrix)
    requires BruteForceSearch.IsMatrix(sh, m)
    ensures var o := BruteForceSearch.Solved(sh, m, [], 0);
      |o.solutions| == o.count && forall k | 0 <= k < o.count :: BruteForceSearch.IsMatrix(sh, o.solutions[k])
  {
    BruteForceSearch.FreshSearch(sh, m);
  }

  /// The fallback when open cells remain: the brute-force search of the
  /// grid; when it finds exactly one solution, every cell takes its code and
  /// each open cell gets a brute-force line.
  function BruteForced(sh: Shape, g: Grid, open: seq<Pos>, t: Trail): (r: (Grid, Trail))
    requires WellFormed(sh, g) && forall n | 0 <= n < |open| :: InGrid(sh, open[n].0, open[n].1)
    ensures WellFormed(sh, r.0)
  {
    var m := BruteForceSearch.Board(sh, g);
    var o := BruteForceSearch.Solved(sh, m, [], 0);
    SolutionShape(sh, m);
    if o.count == 1 then (Written(sh, g, o.solutions[0]), Guesses(sh, t, open, o.solutions[0]))
    else (g, t)
  }

  /// `SolvePuzzle`: the first loop, the deduction loop, then, when open cells
  /// remain, the brute-force fallback; `IsComplete` gives the verdict.
  function Solve(sh: Shape, g: Grid): Finish
    requires GridOk(sh, g)
  {
    var d := Deduced(sh, Begun(sh, g));
    var (h, t) := if d.open == [] then (d.grid, d.trail) else BruteForced(sh, d.grid, d.open, d.trail);
    assert WellFormed(sh, h);
    Finish(h, t, Checks.IsComplete(sh, h))
  }

  /// The brute-force fallback keeps every code already in the grid.
  lemma BruteForcedKeeps(sh: Shape, g: Grid, open: seq<Pos>, t: Trail)
    requires WellFormed(sh, g) && forall n | 0 <= n < |open| :: InGrid(sh, open[n].0, open[n].1)
    ensures var h := BruteForced(sh, g, open, t).0;
      forall a, b | InGrid(sh, a, b) && g[a][b].content != 0 :: h[a][b].content == g[a][b].content
  {
    BruteForceSearch.FreshSearch(sh, BruteForceSearch.Board(sh, g));
  }

  /// The fallback adds lines only for cells of the open list, and never
  /// leaves a cell without lines.
  lemma BruteForcedTrail(sh: Shape, g: Grid, open: seq<Pos>, t: Trail)
    requires WellFormed(sh, g) && forall n | 0 <= n < |open| :: InGrid(sh, open[n].0, open[n].1)
    requires NoDups(open)
    ensures var u := BruteForced(sh, g, open, t).1;
      (forall q | q in u :: q in t || q in open) &&
      ((forall q | q in t :: t[q] != []) ==> forall q | q in u :: u[q] != [])
  {
    var m := BruteForceSearch.Board(sh, g);
    var o := BruteForceSearch.Solved(sh, m, [], 0);
    SolutionShape(sh, m);
    if o.count == 1 {
      GuessesFacts(sh, t, open, o.solutions[0]);
    }
  }

  /// When open cells remain, the fallback leaves none open exactly when the
  /// grid has a unique completion, and then the grid takes that completion;
  /// otherwise the grid is unchanged.
  lemma BruteForcedClosed(sh: Shape, g: Grid, open: seq<Pos>, t: Trail)
    requires Inv(sh, g, open) && open != []
    ensures var h, m := BruteForced(sh, g, open, t).0, BruteForceSearch.Board(sh, g);
      ((forall a, b | InGrid(sh, a, b) :: !Open(h[a][b])) <==> BruteForceSearch.Unique(sh, m)) &&
      (BruteForceSearch.Unique(sh, m) ==> BruteForceSearch.Completes(sh, m, BruteForceSearch.Board(sh, h))) &&
      (!BruteForceSearch.Unique(sh, m) ==> h == g)
  {
    var h, m := BruteForced(sh, g, open, t).0, BruteForceSearch.Board(sh, g);
    var q := open[0];
    assert m[q.0][q.1] == 0;
    BruteForceSearch.FreshUnique(sh, m);
    BruteForceSearch.FreshSearch(sh, m);
    var o := BruteForceSearch.Solved(sh, m, [], 0);
    if o.count == 1 {
      assert BruteForceSearch.Board(sh, h) == o.solutions[0] by {
        BruteForceSearch.MatrixExt(sh, BruteForceSearch.Board(sh, h), o.solutions[0]);
      }
    } else {
      assert Open(h[q.0][q.1]);
    }
  }

  /// The three stages of `Solve`, by name.
  lemma SolveStages(sh: Shape, g: Grid)
    requires GridOk(sh, g)
    ensures var d, f := Deduced(sh, Begun(sh, g)), Solve(sh, g);
      WellFormed(sh, f.grid) &&
      (d.open == [] ==> f.grid == d.grid && f.trail == d.trail) &&
      (d.open != [] ==> (f.grid, f.trail) == BruteForced(sh, d.grid, d.open, d.trail)) &&
      f.complete == Checks.IsComplete(sh, f.grid)
  {
  }

  /// The cells that were not open keep their codes: the first loop and the
  /// deduction leave them alone, and a brute-force solution agrees with every
  /// code already in the grid.
  lemma SolveKeepsGivens(sh: Shape, g: Grid)
    requires GridOk(sh, g)
    ensures WellFormed(sh, Solve(sh, g).grid)
    ensures forall a, b | InGrid(sh, a, b) && !Open(g[a][b]) && g[a][b].content != 0 ::
      Solve(sh, g).grid[a][b].content == g[a][b].content
  {
    var d := Deduced(sh, Begun(sh, g));
    SolveStages(sh, g);
    DeducedKeepsGivens(sh, g);
    if d.open != [] {
      BruteForcedKeeps(sh, d.grid, d.open, d.trail);
    }
  }

  /// The first loop leaves the cells that were not open as they were.
  lemma BegunKeepsGivens(sh: Shape, g: Grid)
    requires GridOk(sh, g)
    ensures var d0 := Begun(sh, g);
      forall a, b | InGrid(sh, a, b) && !Open(g[a][b]) :: !Open(d0.grid[a][b]) && d0.grid[a][b].content == g[a][b].content
  {
    BegunOk(sh, g);
    InitialisedFacts(sh, g, Scanned(sh.size, sh.size, 0));
  }

  /// The first loop and the deduction leave the codes of the cells that were
  /// not open as they were.
  lemma DeducedKeepsGivens(sh: Shape, g: Grid)
    requires GridOk(sh, g)
    ensures var d := Deduced(sh, Begun(sh, g));
      WellFormed(sh, d.grid) &&
      forall a, b | InGrid(sh, a, b) && !Open(g[a][b]) :: d.grid[a][b].content == g[a][b].content
  {
    var d0 := Begun(sh, g);
    var d := Deduced(sh, d0);
    BegunKeepsGivens(sh, g);
    DeducedKept(sh, d0);
    forall a, b | InGrid(sh, a, b) && !Open(g[a][b]) ensures d.grid[a][b].content == g[a][b].content {
      assert Kept(sh, d0.grid, d.grid, a, b);
    }
  }

  /// Under the loop invariant every open cell is empty.
  lemma InvEmpty(sh: Shape, g: Grid, open: seq<Pos>)
    requires Inv(sh, g, open)
    ensures forall a, b | InGrid(sh, a, b) && Open(g[a][b]) :: g[a][b].content == 0
  {
    forall a, b | InGrid(sh, a, b) && Open(g[a][b]) ensures g[a][b].content == 0 {
      var n :| 0 <= n < |open| && open[n] == (a, b);
    }
  }

  /// A cell the solver leaves open is empty.
  lemma SolveLeavesEmpty(sh: Shape, g: Grid)
    requires GridOk(sh, g)
    ensures var f := Solve(sh, g);
      WellFormed(sh, f.grid) && forall a, b | InGrid(sh, a, b) && Open(f.grid[a][b]) :: f.grid[a][b].content == 0
  {
    var d := Deduced(sh, Begun(sh, g));
    SolveStages(sh, g);
    InvEmpty(sh, d.grid, d.open);
    if d.open != [] {
      BruteForcedClosed(sh, d.grid, d.open, d.trail);
    }
  }

  /// A complete result has no open cell left.
  lemma SolveCompleteClosed(sh: Shape, g: Grid)
    requires GridOk(sh, g)
    ensures var f := Solve(sh, g);
      WellFormed(sh, f.grid) && (f.complete ==> forall a, b | InGrid(sh, a, b) :: !Open(f.grid[a][b]))
  {
    var f := Solve(sh, g);
    SolveLeavesEmpty(sh, g);
    SolveStages(sh, g);
    if f.complete {
      Checks.CompleteFilled(sh, f.grid);
    }
  }

  /// When the deduction leaves open cells, the result has none open exactly
  /// when the grid then has a unique completion, and that completion is the
  /// result's codes.
  lemma SolveFallback(sh: Shape, g: Grid)
    requires GridOk(sh, g)
    ensures var d, f := Deduced(sh, Begun(sh, g)), Solve(sh, g);
      var m := BruteForceSearch.Board(sh, d.grid);
      WellFormed(sh, f.grid) &&
      (d.open != [] ==>
        ((forall a, b | InGrid(sh, a, b) :: !Open(f.grid[a][b])) <==> BruteForceSearch.Unique(sh, m)) &&
        (BruteForceSearch.Unique(sh, m) ==> BruteForceSearch.Completes(sh, m, BruteForceSearch.Board(sh, f.grid))))
  {
    var d := Deduced(sh, Begun(sh, g));
    SolveStages(sh, g);
    if d.open != [] {
      BruteForcedClosed(sh, d.grid, d.open, d.trail);
    }
  }

  /// Only cells that were open get trail lines, and each of them gets at
  /// least one.
  lemma SolveTrail(sh: Shape, g: Grid)
    requires GridOk(sh, g)
    ensures var f := Solve(sh, g);
      forall q | q in f.trail :: InGrid(sh, q.0, q.1) && Open(g[q.0][q.1]) && f.trail[q] != []
  {
    var d0 := Begun(sh, g);
    var d := Deduced(sh, d0);
    var f := Solve(sh, g);
    SolveStages(sh, g);
    assert forall q | q in d0.open :: InGrid(sh, q.0, q.1) && Open(g[q.0][q.1]) by {
      BegunOk(sh, g);
      OpensMembers(sh, g, Scanned(sh.size, sh.size, 0));
    }
    assert forall q | q in d.trail :: q in d0.open && d.trail[q] != [] by {
      DeducedTrail(sh, d0, d0.open);
    }
    assert forall q | q in d.open :: q in d0.open by {
      DeducedKept(sh, d0);
    }
    if d.open != [] {
      BruteForcedTrail(sh, d.grid, d.open, d.trail);
    }
  }

  // The methods, each proved equal to the function above that specifies it.

  /// The first loop's body for the cell at (i, j): an open cell holding a
  /// code is emptied and its peers recomputed, then its working list becomes
  /// a copy of its candidate list; the answer says whether the cell is open
  /// and so joins `possibleCells`.
  method PrepareCell(p: Puzzle, i: int, j: int) returns (isOpen: bool)
    requires p.Valid() && InGrid(p.shape, i, j)
    modifies p
    ensures p.shape == old(p.shape) && p.symbols == old(p.symbols) && p.Valid()
    ensures p.grid == Prepared(p.shape, old(p.grid), i, j) && isOpen == Open(old(p.grid)[i][j])
  {
    assert GridOk(p.shape, Prepared(p.shape, p.grid, i, j)) by {
      PreparedFacts(p.shape, p.grid, i, j);
    }
    var cell := p.grid[i][j];
    isOpen := !cell.startPoint && !cell.algorithmEntered;
    if isOpen {
      if cell.content != 0 {
        p.grid := Put(p.shape, p.grid, i, j, cell.(content := 0));
        p.RecomputePeers(i, j);
      }
      p.grid := Put(p.shape, p.grid, i, j, p.grid[i][j].(updated := p.grid[i][j].possibleValues));
    }
  }

  /// One more cell of the first loop: the grid is prepared at (i, j), and
  /// the cell joins the list when it is open.
  lemma PrepareStep(sh: Shape, g: Grid, i: int, j: int)
    requires GridOk(sh, g) && 0 <= i < sh.size && 0 <= j < sh.size
    requires AllIn(sh, Scanned(sh.size, i, j)) && AllIn(sh, Scanned(sh.size, i, j + 1))
    ensures var ps := Scanned(sh.size, i, j);
      var h := Initialised(sh, g, ps);
      Initialised(sh, g, Scanned(sh.size, i, j + 1)) == Prepared(sh, h, i, j) &&
      Opens(sh, g, Scanned(sh.size, i, j + 1)) == Opens(sh, g, ps) + if Open(h[i][j]) then [(i, j)] else []
  {
    var ps := Scanned(sh.size, i, j);
    assert Scanned(sh.size, i, j + 1) == ps + [(i, j)];
    assert (ps + [(i, j)])[..|ps|] == ps;
    InitialisedFacts(sh, g, ps);
  }

  /// The first loop over every cell in row-major order.
  method Prepare(p: Puzzle) returns (open: seq<Pos>)
    requires p.Valid()
    modifies p
    ensures p.shape == old(p.shape) && p.symbols == old(p.symbols) && p.Valid()
    ensures p.grid == Begun(p.shape, old(p.grid)).grid && open == Begun(p.shape, old(p.grid)).open
  {
    ghost var g := p.grid;
    var n := p.shape.size;
    open := [];
    ScannedIn(p.shape, 0, 0);
    for i := 0 to n
      invariant p.shape == old(p.shape) && p.symbols == old(p.symbols) && p.Valid()
      invariant AllIn(p.shape, Scanned(n, i, 0))
      invariant p.grid == Initialised(p.shape, g, Scanned(n, i, 0)) && open == Opens(p.shape, g, Scanned(n, i, 0))
    {
      for j := 0 to n
        invariant p.shape == old(p.shape) && p.symbols == old(p.symbols) && p.Valid()
        invariant AllIn(p.shape, Scanned(n, i, j))
        invariant p.grid == Initialised(p.shape, g, Scanned(n, i, j)) && open == Opens(p.shape, g, Scanned(n, i, j))
      {
        ScannedIn(p.shape, i, j + 1);
        PrepareStep(p.shape, g, i, j);
        var isOpen := PrepareCell(p, i, j);
        if isOpen {
          open := open + [(i, j)];
        }
      }
      assert Scanned(n, i + 1, 0) == Scanned(n, i, n);
      ScannedIn(p.shape, i + 1, 0);
    }
  }

  /// The `foreach` over the open cells for algorithm k: a fresh instance
  /// searches each cell in turn and the trail records what it reported.
  method Sweep(k: Kind, p: Puzzle, open: seq<Pos>, trail0: Trail) returns (trail: Trail, entered: seq<Pos>, found: bool)
    requires p.Valid() && Ready(p.shape, p.grid, open)
    modifies p
    ensures p.shape == old(p.shape) && p.symbols == old(p.symbols) && p.Valid()
    ensures Gathered(p.grid, trail, entered, found) == Swept(k, p.shape, open, |open|, Gathered(old(p.grid), trail0, [], false))
  {
    ghost var start := Gathered(p.grid, trail0, [], false);
    trail, entered, found := trail0, [], false;
    for n := 0 to |open|
      invariant p.shape == old(p.shape) && p.symbols == old(p.symbols) && p.Valid()
      invariant Gathered(p.grid, trail, entered, found) == Swept(k, p.shape, open, n, start)
    {
      var q := open[n];
      assert InGrid(p.shape, q.0, q.1) && Open(p.grid[q.0][q.1]) by {
        assert Kept(p.shape, start.grid, p.grid, q.0, q.1);
      }
      var verdict, report := RunSearch(k, p, q.0, q.1);
      if verdict == Entered {
        entered := entered + [q];
      }
      trail := Logged(trail, q, verdict, Used(report));
      if verdict != Unchanged {
        found := true;
      }
    }
  }

  /// The `for` over the algorithms: each sweeps the open list in turn, and
  /// the first that finds something ends the pass.
  method Pass(p: Puzzle, open: seq<Pos>, trail0: Trail) returns (trail: Trail, entered: seq<Pos>, found: bool)
    requires p.Valid() && Ready(p.shape, p.grid, open)
    modifies p
    ensures p.shape == old(p.shape) && p.symbols == old(p.symbols) && p.Valid()
    ensures Gathered(p.grid, trail, entered, found) == Passed(p.shape, open, Order, Gathered(old(p.grid), trail0, [], false))
  {
    ghost var start := Gathered(p.grid, trail0, [], false);
    trail, entered, found := trail0, [], false;
    var i := 0;
    while i < |Order|
      invariant 0 <= i <= |Order|
      invariant p.shape == old(p.shape) && p.symbols == old(p.symbols) && p.Valid()
      invariant Ready(p.shape, p.grid, open) && entered == [] && !found
      invariant Passed(p.shape, open, Order, start) == Passed(p.shape, open, Order[i..], Gathered(p.grid, trail, entered, found))
    {
      assert Order[i..][0] == Order[i] && Order[i..][1..] == Order[i + 1..];
      found := false;
      trail, entered, found := Sweep(Order[i], p, open, trail);
      if found {
        break;
      }
      i := i + 1;
    }
  }

  /// `cell.possibleValues = new List<int>(cell.updatedPossiblesValues)` for
  /// every cell of the open list.
  method Commit(p: Puzzle, open: seq<Pos>)
    requires WellFormed(p.shape, p.grid) && forall n | 0 <= n < |open| :: InGrid(p.shape, open[n].0, open[n].1)
    modifies p
    ensures p.shape == old(p.shape) && p.symbols == old(p.symbols)
    ensures p.grid == Committed(p.shape, old(p.grid), open)
  {
    CommittedShape(p.shape, p.grid, open[..0]);
    GridExt(p.shape, p.grid, Committed(p.shape, p.grid, open[..0]));
    for n := 0 to |open|
      invariant p.shape == old(p.shape) && p.symbols == old(p.symbols)
      invariant p.grid == Committed(p.shape, old(p.grid), open[..n])
    {
      var q := open[n];
      CommitStep(p.shape, old(p.grid), open, n);
      p.grid := Put(p.shape, p.grid, q.0, q.1, p.grid[q.0][q.1].(possibleValues := p.grid[q.0][q.1].updated));
    }
    assert open[..|open|] == open;
  }

  /// One more cell committed.
  lemma CommitStep(sh: Shape, g: Grid, open: seq<Pos>, n: int)
    requires WellFormed(sh, g) && 0 <= n < |open| && InGrid(sh, open[n].0, open[n].1)
    ensures WellFormed(sh, Committed(sh, g, open[..n]))
    ensures var h, q := Committed(sh, g, open[..n]), open[n];
      Put(sh, h, q.0, q.1, h[q.0][q.1].(possibleValues := h[q.0][q.1].updated)) == Committed(sh, g, open[..n + 1])
  {
    var h: Grid, q := Committed(sh, g, open[..n]), open[n];
    CommittedShape(sh, g, open[..n]);
    CommittedShape(sh, g, open[..n + 1]);
    var x := Put(sh, h, q.0, q.1, h[q.0][q.1].(possibleValues := h[q.0][q.1].updated));
    assert open[..n + 1] == open[..n] + [q];
    GridExt(sh, x, Committed(sh, g, open[..n + 1]));
  }

  /// `possibleCells.Remove(cell)` for each cell of `cellsToRemove`.
  method RemoveEntered(open0: seq<Pos>, entered: seq<Pos>) returns (open: seq<Pos>)
    ensures open == Removed(open0, entered)
  {
    open := open0;
    for n := 0 to |entered|
      invariant open == Removed(open0, entered[..n])
    {
      assert entered[..n + 1][..n] == entered[..n];
      open := RemoveFirst(open, entered[n]);
    }
    assert entered[..|entered|] == entered;
  }

  /// The `while` loop over passes.
  method Deduce(p: Puzzle, open0: seq<Pos>) returns (open: seq<Pos>, trail: Trail)
    requires p.Valid() && Inv(p.shape, p.grid, open0)
    modifies p
    ensures p.shape == old(p.shape) && p.symbols == old(p.symbols) && p.Valid()
    ensures var e := Deduced(p.shape, Deduction(old(p.grid), open0, map[], 0));
      p.grid == e.grid && open == e.open && trail == e.trail
  {
    ghost var start := Deduction(p.grid, open0, map[], 0);
    open, trail := open0, map[];
    var counter := 0;
    while |open| != 0 && counter < 100
      invariant p.shape == old(p.shape) && p.symbols == old(p.symbols) && p.Valid()
      invariant 0 <= counter <= 100 && Inv(p.shape, p.grid, open)
      invariant Deduced(p.shape, Deduction(p.grid, open, trail, counter)) == Deduced(p.shape, start)
      decreases 100 - counter
    {
      ghost var d := Deduction(p.grid, open, trail, counter);
      var entered, found;
      trail, entered, found := Pass(p, open, trail);
      if !found {
        break;
      } else {
        AfterFacts(p.shape, d);
        Commit(p, open);
        open := RemoveEntered(open, entered);
      }
      counter := counter + 1;
      assert Deduction(p.grid, open, trail, counter) == After(p.shape, d);
    }
  }

  /// The brute-force fallback: `BruteForce.Solve(ref Puzzle)`, then a line
  /// for each open cell naming its code in the first solution.
  method Fallback(p: Puzzle, open: seq<Pos>, trail0: Trail) returns (trail: Trail)
    requires p.Valid() && forall n | 0 <= n < |open| :: InGrid(p.shape, open[n].0, open[n].1)
    modifies p
    ensures p.shape == old(p.shape) && p.symbols == old(p.symbols) && p.Valid()
    ensures (p.grid, trail) == BruteForced(old(p.shape), old(p.grid), open, trail0)
  {
    ghost var m := BruteForceSearch.Board(p.shape, p.grid);
    var bruteForce := new BruteForceSearch.BruteForce();
    var unique := bruteForce.SolveInPlace(p);
    trail := trail0;
    if unique {
      var solution := bruteForce.Solution(0).value;
      GridExt(p.shape, p.grid, Written(p.shape, old(p.grid), solution));
      trail := LogGuesses(p.shape, trail0, open, solution);
    }
  }

  /// The `foreach` over the open cells after a unique brute-force solution.
  method LogGuesses(sh: Shape, trail0: Trail, open: seq<Pos>, solution: BruteForceSearch.Matrix) returns (trail: Trail)
    requires BruteForceSearch.IsMatrix(sh, solution) && forall n | 0 <= n < |open| :: InGrid(sh, open[n].0, open[n].1)
    ensures trail == Guesses(sh, trail0, open, solution)
  {
    trail := trail0;
    for n := 0 to |open|
      invariant trail == Guesses(sh, trail0, open[..n], solution)
    {
      var q := open[n];
      assert open[..n + 1][..n] == open[..n];
      trail := Logged(trail, q, Entered, Guessed(q.0, q.1, solution[q.0][q.1]));
    }
    assert open[..|open|] == open;
  }

  /// `SolvePuzzle`: returns whether the puzzle is complete, and the trail.
  method SolvePuzzle(p: Puzzle) returns (complete: bool, trail: Trail)
    requires p.Valid()
    modifies p
    ensures p.shape == old(p.shape) && p.symbols == old(p.symbols) && p.Valid()
    ensures Finish(p.grid, trail, complete) == Solve(old(p.shape), old(p.grid))
  {
    var open := Prepare(p);
    open, trail := Deduce(p, open);
    if |open| > 0 {
      trail := Fallback(p, open, trail);
    }
    complete := Checks.IsComplete(p.shape, p.grid);
  }

  // Hints

  /// The empty open cells of ps, in order: the cells `ProvideHints` may fill.
  function Blanks(sh: Shape, g: Grid, ps: seq<Pos>): seq<Pos>
    requires WellFormed(sh, g) && AllIn(sh, ps)
    decreases |ps|
  {
    if ps == [] then []
    else
      var q := ps[|ps| - 1];
      assert InGrid(sh, q.0, q.1);
      Blanks(sh, g, ps[..|ps| - 1]) + if Open(g[q.0][q.1]) && g[q.0][q.1].content == 0 then [q] else []
  }

  /// `Blanks` keeps exactly the empty open cells of ps, each once when ps
  /// has each once.
  lemma {:induction false} BlanksMembers(sh: Shape, g: Grid, ps: seq<Pos>)
    requires WellFormed(sh, g) && AllIn(sh, ps)
    ensures forall q :: q in Blanks(sh, g, ps) <==> q in ps && Open(g[q.0][q.1]) && g[q.0][q.1].content == 0
    ensures NoDups(ps) ==> NoDups(Blanks(sh, g, ps))
    decreases |ps|
  {
    if ps != [] {
      var init, q := ps[..|ps| - 1], ps[|ps| - 1];
      assert AllIn(sh, init) by {
        forall n | 0 <= n < |init| ensures InGrid(sh, init[n].0, init[n].1) {
          assert init[n] == ps[n];
        }
      }
      BlanksMembers(sh, g, init);
      assert ps == init + [q];
      var o := Blanks(sh, g, init);
      if NoDups(ps) && Open(g[q.0][q.1]) && g[q.0][q.1].content == 0 {
        assert q !in init by {
          forall n | 0 <= n < |init| ensures init[n] != q { }
        }
        var t := o + [q];
        forall a, b | 0 <= a < b < |t| ensures t[a] != t[b] {
          if b == |o| {
            assert t[a] == o[a] && o[a] in o;
          } else {
            assert t[a] == o[a] && t[b] == o[b];
          }
        }
      }
    }
  }

  /// The empty open cells of the whole grid.
  lemma AllBlanks(sh: Shape, g: Grid)
    requires WellFormed(sh, g)
    ensures AllIn(sh, Scanned(sh.size, sh.size, 0))
    ensures var c := Blanks(sh, g, Scanned(sh.size, sh.size, 0));
      NoDups(c) && forall q :: q in c <==> InGrid(sh, q.0, q.1) && Open(g[q.0][q.1]) && g[q.0][q.1].content == 0
  {
    ScannedIn(sh, sh.size, 0);
    ScannedMembers(sh.size, sh.size, 0);
    BlanksMembers(sh, g, Scanned(sh.size, sh.size, 0));
  }

  /// The cell x after a hint copied the cell s of the solved puzzle into it.
  function Hint(x: Cell, s: Cell): (y: Cell)
    ensures y.content == s.content && y.algorithmEntered
    ensures y == x.(content := s.content, algorithmEntered := true)
  {
    x.(content := s.content, algorithmEntered := true)
  }

  /// h is the grid g after hints at the cells of hinted.
  ghost predicate HintedAt(sh: Shape, g: Grid, solved: Grid, hinted: seq<Pos>, h: Grid)
    requires WellFormed(sh, g) && WellFormed(sh, solved)
  {
    WellFormed(sh, h) &&
    forall a, b | InGrid(sh, a, b) :: h[a][b] == if (a, b) in hinted then Hint(g[a][b], solved[a][b]) else g[a][b]
  }

  /// What `TryGetValue` gives for each cell of ps: its trail lines, or
  /// nothing (`null`) for a cell without any.
  function Lookups(t: Trail, ps: seq<Pos>): (r: seq<Option<seq<Entry>>>)
    ensures |r| == |ps|
    ensures forall k | 0 <= k < |ps| :: r[k] == if ps[k] in t then Some(t[ps[k]]) else None
  {
    seq(|ps|, k requires 0 <= k < |ps| => if ps[k] in t then Some(t[ps[k]]) else None)
  }

  /// The object behind `ProvideHints`: the solved puzzle's cells, the trail
  /// of the solve, the trail lines handed out with each hint, and the output
  /// message.
  class Solver {
    /// The cells of `m_SolvedPuzzle`.
    var solved: Grid
    /// `m_CompletedPuzzleAlgorithms`.
    var completed: Trail
    /// `m_AlgorithmsUsed`.
    var algorithmsUsed: seq<Option<seq<Entry>>>
    /// `m_OutputMessage`.
    var outputMessage: string

    constructor (solved: Grid, completed: Trail)
      ensures this.solved == solved && this.completed == completed
      ensures algorithmsUsed == [] && outputMessage == ""
    {
      this.solved := solved;
      this.completed := completed;
      algorithmsUsed := [];
      outputMessage := "";
    }

    /// `ProvideHints`: fill randomly chosen empty open cells from the solved
    /// puzzle until the puzzle is complete, n hints were given or none is
    /// left. The answer is `true` when the puzzle is then complete, `false`
    /// when fewer than n hints were given (and the message says how many),
    /// and `null` otherwise. `hinted` lists the filled cells in order. A
    /// complete puzzle stops the timer and reports the time taken; `seconds`
    /// is that reading of the clock, already rounded and formatted.
    method ProvideHints(p: Puzzle, n: int, seconds: string) returns (r: Option<bool>, ghost hinted: seq<Pos>)
      requires p.Valid() && WellFormed(p.shape, solved)
      modifies this, p
      ensures p.shape == old(p.shape) && p.symbols == old(p.symbols) && p.Valid()
      ensures solved == old(solved) && completed == old(completed)
      ensures NoDups(hinted) && |hinted| <= if n < 0 then 0 else n
      ensures forall q | q in hinted :: Blank(p.shape, old(p.grid), q)
      ensures HintedAt(p.shape, old(p.grid), solved, hinted, p.grid)
      ensures algorithmsUsed == old(algorithmsUsed) + Lookups(completed, hinted)
      ensures Checks.IsComplete(p.shape, p.grid) || |hinted| >= n || forall q | Blank(p.shape, old(p.grid), q) :: q in hinted
      ensures r == Some(true) <==> Checks.IsComplete(p.shape, p.grid)
      ensures r == Some(false) <==> !Checks.IsComplete(p.shape, p.grid) && |hinted| != n
      ensures r == Some(false) ==> outputMessage == Format(|hinted|) + " hints could be given out of your requested " + Format(n)
      ensures r == Some(true) ==> outputMessage == "Puzzle is complete, it took " + seconds + " seconds"
      ensures r == None ==> outputMessage == old(outputMessage)
    {
      var cells := HintCells(p);
      var given, used;
      given, cells, used, hinted := GiveHints(p, solved, completed, n, cells);
      algorithmsUsed := algorithmsUsed + used;
      var complete := Checks.IsComplete(p.shape, p.grid);
      if complete {
        outputMessage := "Puzzle is complete, it took " + seconds + " seconds";
        r := Some(true);
      } else if given != n {
        outputMessage := Format(given) + " hints could be given out of your requested " + Format(n);
        r := Some(false);
      } else {
        r := None;
      }
    }

    /// The first loop of `ProvideHints`: the empty open cells in row-major
    /// order.
    static method HintCells(p: Puzzle) returns (cells: seq<Pos>)
      requires WellFormed(p.shape, p.grid)
      ensures Unhinted(p.shape, p.grid, cells, [])
    {
      var n := p.shape.size;
      cells := [];
      ScannedIn(p.shape, 0, 0);
      for i := 0 to n
        invariant AllIn(p.shape, Scanned(n, i, 0)) && cells == Blanks(p.shape, p.grid, Scanned(n, i, 0))
      {
        for j := 0 to n
          invariant AllIn(p.shape, Scanned(n, i, j)) && cells == Blanks(p.shape, p.grid, Scanned(n, i, j))
        {
          ScannedIn(p.shape, i, j + 1);
          ghost var ps := Scanned(n, i, j);
          assert Scanned(n, i, j + 1) == ps + [(i, j)];
          assert (ps + [(i, j)])[..|ps|] == ps;
          var cell := p.grid[i][j];
          if !cell.startPoint && !cell.algorithmEntered && cell.content == 0 {
            cells := cells + [(i, j)];
          }
        }
        assert Scanned(n, i + 1, 0) == Scanned(n, i, n);
        ScannedIn(p.shape, i + 1, 0);
      }
      AllBlanks(p.shape, p.grid);
      assert forall q :: q in cells <==> Blank(p.shape, p.grid, q);
    }
  }

  /// The `while` loop of `ProvideHints`, from the empty open cells cells0,
  /// with the solved cells and the trail; used collects the lines handed out.
  method GiveHints(p: Puzzle, solved: Grid, completed: Trail, n: int, cells0: seq<Pos>)
    returns (given: int, cells: seq<Pos>, used: seq<Option<seq<Entry>>>, ghost hinted: seq<Pos>)
    requires p.Valid() && WellFormed(p.shape, solved) && Unhinted(p.shape, p.grid, cells0, [])
    modifies p
    ensures p.shape == old(p.shape) && p.symbols == old(p.symbols) && p.Valid()
    ensures given == |hinted| <= if n < 0 then 0 else n
    ensures Unhinted(p.shape, old(p.grid), cells, hinted)
    ensures HintedAt(p.shape, old(p.grid), solved, hinted, p.grid)
    ensures used == Lookups(completed, hinted)
    ensures Checks.IsComplete(p.shape, p.grid) || given >= n || cells == []
  {
    given := 0;
    cells := cells0;
    ghost var g := p.grid;
    hinted, used := [], [];
    while !Checks.IsComplete(p.shape, p.grid) && given < n && |cells| > 0
      invariant p.shape == old(p.shape) && p.symbols == old(p.symbols) && p.Valid()
      invariant given == |hinted| <= if n < 0 then 0 else n
      invariant Unhinted(p.shape, g, cells, hinted)
      invariant HintedAt(p.shape, g, solved, hinted, p.grid)
      invariant used == Lookups(completed, hinted)
      decreases |cells|
    {
      var k :| 0 <= k < |cells|;
      var q := cells[k];
      UnhintedStep(p.shape, g, cells, hinted, k);
      var x := Hint(p.grid[q.0][q.1], solved[q.0][q.1]);
      assert GridOk(p.shape, Put(p.shape, p.grid, q.0, q.1, x)) by {
        assert ListsOk(p.grid[q.0][q.1]);
        PutKeepsOk(p.shape, p.grid, q.0, q.1, x);
      }
      HintStep(p.shape, g, solved, hinted, q, p.grid);
      LookupsStep(completed, hinted, q);
      p.grid := Put(p.shape, p.grid, q.0, q.1, x);
      used := used + [if q in completed then Some(completed[q]) else None];
      cells, hinted := WithoutAt(cells, k), hinted + [q];
      given := given + 1;
    }
  }

  /// s without its element at k (`RemoveAt`).
  function WithoutAt(s: seq<Pos>, k: int): (t: seq<Pos>)
    requires 0 <= k < |s|
    ensures |t| == |s| - 1
  {
    s[..k] + s[k + 1..]
  }

  /// Removing one element of a list without duplicates leaves exactly the
  /// others, still without duplicates.
  lemma WithoutAtMembers(s: seq<Pos>, k: int)
    requires 0 <= k < |s| && NoDups(s)
    ensures NoDups(WithoutAt(s, k))
    ensures forall q :: q in WithoutAt(s, k) <==> q in s && q != s[k]
  {
    var t := WithoutAt(s, k);
    assert forall m | 0 <= m < |t| :: t[m] == if m < k then s[m] else s[m + 1];
    forall q ensures q in t <==> q in s && q != s[k] {
      if q in s && q != s[k] {
        var m :| 0 <= m < |s| && s[m] == q;
        assert t[if m < k then m else m - 1] == q;
      }
    }
  }

  /// The cell at q is open and empty in g.
  predicate Blank(sh: Shape, g: Grid, q: Pos)
    requires WellFormed(sh, g)
  {
    InGrid(sh, q.0, q.1) && Open(g[q.0][q.1]) && g[q.0][q.1].content == 0
  }

  /// What the hint loop keeps: the cells still to choose from and the cells
  /// hinted so far are, between them and each once, the empty open cells
  /// of the grid the loop started from.
  ghost predicate Unhinted(sh: Shape, g: Grid, cells: seq<Pos>, hinted: seq<Pos>)
    requires WellFormed(sh, g)
  {
    NoDups(cells) && NoDups(hinted) && (forall q | q in cells :: q !in hinted) &&
    forall q :: q in cells || q in hinted <==> Blank(sh, g, q)
  }

  /// Moving the k-th cell from the choices to the hints keeps `Unhinted`.
  lemma UnhintedStep(sh: Shape, g: Grid, cells: seq<Pos>, hinted: seq<Pos>, k: int)
    requires WellFormed(sh, g) && Unhinted(sh, g, cells, hinted) && 0 <= k < |cells|
    ensures Blank(sh, g, cells[k]) && cells[k] !in hinted
    ensures Unhinted(sh, g, WithoutAt(cells, k), hinted + [cells[k]])
  {
    var q := cells[k];
    assert q in cells;
    WithoutAtMembers(cells, k);
    var h := hinted + [q];
    forall a, b | 0 <= a < b < |h| ensures h[a] != h[b] {
      if b == |hinted| {
        assert h[a] == hinted[a] && hinted[a] in hinted;
      } else {
        assert h[a] == hinted[a] && h[b] == hinted[b];
      }
    }
  }

  /// When no choice is left, every empty open cell was hinted.
  lemma UnhintedEnd(sh: Shape, g: Grid, cells: seq<Pos>, hinted: seq<Pos>)
    requires WellFormed(sh, g) && Unhinted(sh, g, cells, hinted)
    ensures forall q | q in hinted :: Blank(sh, g, q)
    ensures cells == [] ==> forall q | Blank(sh, g, q) :: q in hinted
  {
  }

  /// One more line handed out.
  lemma LookupsStep(t: Trail, hinted: seq<Pos>, q: Pos)
    ensures Lookups(t, hinted + [q]) == Lookups(t, hinted) + [if q in t then Some(t[q]) else None]
  {
  }

  /// One more hint at a cell not hinted yet.
  lemma HintStep(sh: Shape, g: Grid, solved: Grid, hinted: seq<Pos>, q: Pos, h: Grid)
    requires WellFormed(sh, g) && WellFormed(sh, solved) && InGrid(sh, q.0, q.1) && q !in hinted
    requires HintedAt(sh, g, solved, hinted, h)
    ensures HintedAt(sh, g, solved, hinted + [q], Put(sh, h, q.0, q.1, Hint(h[q.0][q.1], solved[q.0][q.1])))
  {
  }
}
