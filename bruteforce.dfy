/// `BruteForce`: a depth-first search over an N x N matrix of codes, 0 marking
/// an empty cell. The first empty cell in row-major order takes, in ascending
/// order, each code no other cell of its row, column or box holds; every full
/// grid reached is recorded once, and the search stops as soon as a second
/// one is recorded.
module BruteForceSearch {
  import opened Wrappers
  import opened Numerals
  import opened Lists
  import opened Cells
  import opened Relations
  import opened Puzzles

  /// An `int[,]` puzzle, as its rows of codes.
  type Matrix = seq<seq<int>>

  predicate IsMatrix(sh: Shape, m: Matrix)
  {
    sh.Valid() && |m| == sh.size && forall i | 0 <= i < |m| :: |m[i]| == sh.size
  }

  /// The matrix with code v written at (r, c).
  function Write(sh: Shape, m: Matrix, r: int, c: int, v: int): (m': Matrix)
    requires IsMatrix(sh, m) && InGrid(sh, r, c)
    ensures IsMatrix(sh, m')
    ensures forall i, j | InGrid(sh, i, j) :: m'[i][j] == if i == r && j == c then v else m[i][j]
  {
    m[r := m[r][c := v]]
  }

  lemma MatrixExt(sh: Shape, a: Matrix, b: Matrix)
    requires IsMatrix(sh, a) && IsMatrix(sh, b)
    requires forall i, j | InGrid(sh, i, j) :: a[i][j] == b[i][j]
    ensures a == b
  {
    forall i | 0 <= i < sh.size ensures a[i] == b[i] {
      assert forall j | 0 <= j < sh.size :: a[i][j] == b[i][j];
    }
  }

  /// No cell is empty.
  predicate Filled(sh: Shape, m: Matrix)
    requires IsMatrix(sh, m)
  {
    forall i, j | 0 <= i < sh.size && 0 <= j < sh.size :: m[i][j] != 0
  }

  /// The positions of the empty cells.
  function Empties(sh: Shape, m: Matrix): set<(int, int)>
    requires IsMatrix(sh, m)
  {
    set i, j | 0 <= i < sh.size && 0 <= j < sh.size && m[i][j] == 0 :: (i, j)
  }

  /// Writing a code other than 0 into an empty cell leaves strictly fewer
  /// empty cells: the measure on which the search terminates.
  lemma WriteFills(sh: Shape, m: Matrix, r: int, c: int, v: int)
    requires IsMatrix(sh, m) && InGrid(sh, r, c) && m[r][c] == 0 && v != 0
    ensures Empties(sh, Write(sh, m, r, c, v)) < Empties(sh, m)
  {
    var m' := Write(sh, m, r, c, v);
    assert (r, c) in Empties(sh, m);
    assert Empties(sh, m') == Empties(sh, m) - {(r, c)};
  }

  // ---------------------------------------------------------------------
  // Candidates

  /// (i, j) is another cell of the row, column or box of (r, c).
  predicate Neighbour(sh: Shape, r: int, c: int, i: int, j: int)
    requires sh.Valid()
  {
    (i != r || j != c) && Peer(sh, r, c, i, j)
  }

  /// Some other cell of the row, column or box of (r, c) holds code u.
  predicate Held(sh: Shape, m: Matrix, r: int, c: int, u: int)
    requires IsMatrix(sh, m)
  {
    exists i, j | 0 <= i < sh.size && 0 <= j < sh.size && Neighbour(sh, r, c, i, j) :: m[i][j] == u
  }

  /// Every code of ps may be written at (r, c).
  predicate Choosable(sh: Shape, m: Matrix, r: int, c: int, ps: seq<int>)
    requires IsMatrix(sh, m) && InGrid(sh, r, c)
  {
    forall k | 0 <= k < |ps| :: 1 <= ps[k] <= sh.size && !Held(sh, m, r, c, ps[k])
  }

  /// The codes `PossibleValues` returns for (r, c): the codes 1..N no other
  /// cell of the row, column or box holds, in ascending order.
  function Allowed(sh: Shape, m: Matrix, r: int, c: int): (ps: seq<int>)
    requires IsMatrix(sh, m) && InGrid(sh, r, c)
    ensures Increasing(ps)
    ensures forall u :: u in ps <==> 1 <= u <= sh.size && !Held(sh, m, r, c, u)
    ensures Choosable(sh, m, r, c, ps)
  {
    var f := u => !Held(sh, m, r, c, u);
    RangeIncreasing(1, sh.size + 1);
    KeepIncreasing(Range(1, sh.size + 1), f);
    KeepMembers(Range(1, sh.size + 1), f);
    var ps := Keep(Range(1, sh.size + 1), f);
    assert forall k | 0 <= k < |ps| :: ps[k] in ps;
    ps
  }

  // ---------------------------------------------------------------------
  // The scan for the first empty cell

  /// (a, b) comes before (r, c) in row-major order.
  predicate Before(a: int, b: int, r: int, c: int)
  {
    a < r || (a == r && b < c)
  }

  /// The first index from j on of an empty cell of the row.
  function EmptyInRow(row: seq<int>, j: nat): (k: Option<int>)
    decreases |row| - j
    ensures k.Some? ==> j <= k.value < |row| && row[k.value] == 0
    ensures k.Some? ==> forall b | j <= b < k.value :: row[b] != 0
    ensures k.None? ==> forall b | j <= b < |row| :: row[b] != 0
  {
    if j >= |row| then None
    else if row[j] == 0 then Some(j)
    else EmptyInRow(row, j + 1)
  }

  /// The first empty cell, in row-major order, from row i on.
  function EmptyFrom(sh: Shape, m: Matrix, i: nat): (p: Option<(int, int)>)
    requires IsMatrix(sh, m)
    decreases sh.size - i
    ensures p.Some? ==> InGrid(sh, p.value.0, p.value.1) && i <= p.value.0 && m[p.value.0][p.value.1] == 0
    ensures p.Some? ==> forall a, b | i <= a && InGrid(sh, a, b) && Before(a, b, p.value.0, p.value.1) :: m[a][b] != 0
    ensures p.None? ==> forall a, b | i <= a && InGrid(sh, a, b) :: m[a][b] != 0
  {
    if i >= sh.size then None
    else match EmptyInRow(m[i], 0)
      case Some(j) => Some((i, j))
      case None => EmptyFrom(sh, m, i + 1)
  }

  /// The cell `SolvePuzzle` tries first: the first empty one in row-major
  /// order, or none when the grid is full.
  function FirstEmpty(sh: Shape, m: Matrix): (p: Option<(int, int)>)
    requires IsMatrix(sh, m)
    ensures p.Some? ==> InGrid(sh, p.value.0, p.value.1) && m[p.value.0][p.value.1] == 0
    ensures p.Some? ==> forall a, b | InGrid(sh, a, b) && Before(a, b, p.value.0, p.value.1) :: m[a][b] != 0
    ensures p.None? <==> Filled(sh, m)
  {
    EmptyFrom(sh, m, 0)
  }

  // ---------------------------------------------------------------------
  // The search

  /// The outcome of `SolvePuzzle` or `TryCell`: the verdict, the matrix left
  /// behind, and the recorded solutions with their counter.
  datatype Run = Run(found: bool, grid: Matrix, solutions: seq<Matrix>, count: int)

  /// `SolvePuzzle` on m, with the solutions recorded so far and the counter.
  function Solved(sh: Shape, m: Matrix, sols: seq<Matrix>, count: int): Run
    requires IsMatrix(sh, m)
    decreases Empties(sh, m), 1
  {
    match FirstEmpty(sh, m)
    case None => Run(true, m, sols, count)
    case Some(p) => Tried(sh, m, p.0, p.1, Allowed(sh, m, p.0, p.1), 0, sols, count)
  }

  /// The loop of `TryCell` on the empty cell (r, c) from the i-th candidate
  /// on: write the code and search on; a full grid reached is recorded when
  /// new, and a second recorded solution ends the search; when the codes run
  /// out the cell is emptied again.
  function Tried(sh: Shape, m: Matrix, r: int, c: int, ps: seq<int>, i: nat, sols: seq<Matrix>, count: int): Run
    requires IsMatrix(sh, m) && InGrid(sh, r, c) && m[r][c] == 0
    requires i <= |ps| && Choosable(sh, m, r, c, ps)
    decreases Empties(sh, m), 0, |ps| - i
  {
    if i == |ps| then Run(false, m, sols, count)
    else
      WriteFills(sh, m, r, c, ps[i]);
      var o := Solved(sh, Write(sh, m, r, c, ps[i]), sols, count);
      if o.found then
        var sols', count' := if o.grid in o.solutions then o.solutions else o.solutions + [o.grid],
                             if o.grid in o.solutions then o.count else o.count + 1;
        if count' > 1 then Run(true, o.grid, sols', count')
        else Tried(sh, m, r, c, ps, i + 1, sols', count')
      else Tried(sh, m, r, c, ps, i + 1, o.solutions, o.count)
  }

  // ---------------------------------------------------------------------
  // What the search guarantees

  /// s solves m: a full N x N grid that keeps every code of m and puts in
  /// each empty cell of m a code 1..N no other cell of its row, column or box
  /// holds in s.
  ghost predicate Completes(sh: Shape, m: Matrix, s: Matrix)
    requires IsMatrix(sh, m)
  {
    IsMatrix(sh, s) &&
    forall i, j | InGrid(sh, i, j) ::
      if m[i][j] != 0 then s[i][j] == m[i][j] else 1 <= s[i][j] <= sh.size && !Held(sh, s, i, j, s[i][j])
  }

  /// m has exactly one solution.
  ghost predicate Unique(sh: Shape, m: Matrix)
    requires IsMatrix(sh, m)
  {
    exists s :: Completes(sh, m, s) && forall t | Completes(sh, m, t) :: t == s
  }

  /// The record grew from (sols, count) to (sols', count'): solutions are
  /// only appended, each with one count, none twice, each solving m.
  ghost predicate Grew(sh: Shape, m: Matrix, sols: seq<Matrix>, count: int, sols': seq<Matrix>, count': int)
    requires IsMatrix(sh, m)
  {
    |sols| <= |sols'| && sols'[..|sols|] == sols && count' - count == |sols'| - |sols| &&
    (NoDups(sols) ==> NoDups(sols')) &&
    forall k | |sols| <= k < |sols'| :: Completes(sh, m, sols'[k])
  }

  /// The most the counter can reach from count.
  function Cap(count: int): int
  {
    if count <= 1 then 2 else count + 1
  }

  /// The search of m ended at once: m is already full.
  ghost predicate Restarted(sh: Shape, m: Matrix, sols: seq<Matrix>, count: int, o: Run)
    requires IsMatrix(sh, m)
  {
    o.grid == m && Filled(sh, m) && o.solutions == sols && o.count == count
  }

  /// What a search of m, started from the record (sols, count), guarantees.
  ghost predicate Sound(sh: Shape, m: Matrix, sols: seq<Matrix>, count: int, o: Run)
    requires IsMatrix(sh, m)
  {
    Grew(sh, m, sols, count, o.solutions, o.count) && o.count <= Cap(count) &&
    (!o.found ==> o.grid == m && (o.count <= 1 || o.count == count)) &&
    (o.found ==> Completes(sh, m, o.grid)) &&
    (o.found ==> Restarted(sh, m, sols, count, o) || (o.count > 1 && o.grid in o.solutions)) &&
    (o.found && count <= 1 && o.count > 1 ==> o.grid == o.solutions[|o.solutions| - 1])
  }

  /// Every solution of m is recorded, or is the grid the search ends on, or
  /// the search stopped early on a second solution.
  ghost predicate Exhaustive(sh: Shape, m: Matrix, o: Run)
    requires IsMatrix(sh, m)
  {
    o.count > 1 || forall s | Completes(sh, m, s) :: s in o.solutions || (o.found && s == o.grid)
  }

  /// A solution of m with v written at the empty cell (r, c) solves m, when v
  /// is a candidate there.
  lemma CompletesUp(sh: Shape, m: Matrix, r: int, c: int, v: int, s: Matrix)
    requires IsMatrix(sh, m) && InGrid(sh, r, c) && m[r][c] == 0
    requires 1 <= v <= sh.size && !Held(sh, m, r, c, v)
    requires Completes(sh, Write(sh, m, r, c, v), s)
    ensures Completes(sh, m, s)
  {
    var m1 := Write(sh, m, r, c, v);
    assert s[r][c] == v;
    forall i, j | 0 <= i < sh.size && 0 <= j < sh.size && Neighbour(sh, r, c, i, j) ensures s[i][j] != v {
      if m[i][j] == 0 {
        assert m1[i][j] == 0 && Neighbour(sh, i, j, r, c);
        assert !Held(sh, s, i, j, s[i][j]);
      }
    }
  }

  /// A solution of m puts at the empty cell (r, c) a candidate of m there,
  /// and solves m with that code written in.
  lemma CompletesDown(sh: Shape, m: Matrix, r: int, c: int, s: Matrix)
    requires IsMatrix(sh, m) && InGrid(sh, r, c) && m[r][c] == 0 && Completes(sh, m, s)
    ensures 1 <= s[r][c] <= sh.size && !Held(sh, m, r, c, s[r][c])
    ensures Completes(sh, Write(sh, m, r, c, s[r][c]), s)
  {
    var v := s[r][c];
    assert !Held(sh, s, r, c, v);
    forall i, j | 0 <= i < sh.size && 0 <= j < sh.size && Neighbour(sh, r, c, i, j) ensures m[i][j] != v {
      if m[i][j] != 0 {
        assert s[i][j] == m[i][j];
      }
    }
  }

  /// A full grid is its own and only solution.
  lemma FilledCompletes(sh: Shape, m: Matrix)
    requires IsMatrix(sh, m) && Filled(sh, m)
    ensures Completes(sh, m, m)
    ensures forall s | Completes(sh, m, s) :: s == m
  {
    forall s | Completes(sh, m, s) ensures s == m {
      MatrixExt(sh, s, m);
    }
  }

  /// Solutions of m with v written in are solutions of m.
  lemma GrewUp(sh: Shape, m: Matrix, r: int, c: int, v: int, sols: seq<Matrix>, count: int, sols': seq<Matrix>, count': int)
    requires IsMatrix(sh, m) && InGrid(sh, r, c) && m[r][c] == 0
    requires 1 <= v <= sh.size && !Held(sh, m, r, c, v)
    requires Grew(sh, Write(sh, m, r, c, v), sols, count, sols', count')
    ensures Grew(sh, m, sols, count, sols', count')
  {
    forall k | |sols| <= k < |sols'| ensures Completes(sh, m, sols'[k]) {
      CompletesUp(sh, m, r, c, v, sols'[k]);
    }
  }

  /// Growth in two stages is growth.
  lemma GrewChain(sh: Shape, m: Matrix, a: seq<Matrix>, ca: int, b: seq<Matrix>, cb: int, d: seq<Matrix>, cd: int)
    requires IsMatrix(sh, m) && Grew(sh, m, a, ca, b, cb) && Grew(sh, m, b, cb, d, cd)
    ensures Grew(sh, m, a, ca, d, cd)
  {
    assert d[..|a|] == d[..|b|][..|a|];
    forall k | |a| <= k < |d| ensures Completes(sh, m, d[k]) {
      if k < |b| {
        assert d[k] == d[..|b|][k];
      }
    }
  }

  /// Recording the grid a search ended on, unless already recorded.
  lemma GrewRecord(sh: Shape, m: Matrix, sols: seq<Matrix>, count: int, s: Matrix)
    requires IsMatrix(sh, m) && Completes(sh, m, s)
    ensures var sols', count' := if s in sols then sols else sols + [s], if s in sols then count else count + 1;
      Grew(sh, m, sols, count, sols', count') && s in sols'
  {
    if s !in sols {
      assert (sols + [s])[..|sols|] == sols;
      assert (sols + [s])[|sols|] == s;
    }
  }

  /// `SolvePuzzle` keeps the record sound.
  lemma {:induction false} SolvedSound(sh: Shape, m: Matrix, sols: seq<Matrix>, count: int)
    requires IsMatrix(sh, m)
    ensures Sound(sh, m, sols, count, Solved(sh, m, sols, count))
    decreases Empties(sh, m), 1
  {
    match FirstEmpty(sh, m)
    case None =>
      FilledCompletes(sh, m);
      assert sols[..|sols|] == sols;
    case Some(p) =>
      TriedSound(sh, m, p.0, p.1, Allowed(sh, m, p.0, p.1), 0, sols, count);
  }

  /// `TryCell` keeps the record sound; it reports success only on a second
  /// solution.
  lemma {:induction false} TriedSound(sh: Shape, m: Matrix, r: int, c: int, ps: seq<int>, i: nat, sols: seq<Matrix>, count: int)
    requires IsMatrix(sh, m) && InGrid(sh, r, c) && m[r][c] == 0
    requires i <= |ps| && Choosable(sh, m, r, c, ps)
    ensures var o := Tried(sh, m, r, c, ps, i, sols, count);
      Sound(sh, m, sols, count, o) && (o.found ==> o.count > 1 && o.grid in o.solutions)
    decreases Empties(sh, m), 0, |ps| - i, 1
  {
    if i == |ps| {
      assert Tried(sh, m, r, c, ps, i, sols, count) == Run(false, m, sols, count);
      assert sols[..|sols|] == sols;
    } else {
      var v := ps[i];
      var m1 := Write(sh, m, r, c, v);
      WriteFills(sh, m, r, c, v);
      var o := Solved(sh, m1, sols, count);
      SolvedSound(sh, m1, sols, count);
      GrewUp(sh, m, r, c, v, sols, count, o.solutions, o.count);
      if o.found {
        CompletesUp(sh, m, r, c, v, o.grid);
        TriedRecorded(sh, m, r, c, ps, i, sols, count);
      } else {
        var t := Tried(sh, m, r, c, ps, i + 1, o.solutions, o.count);
        assert Tried(sh, m, r, c, ps, i, sols, count) == t;
        TriedSound(sh, m, r, c, ps, i + 1, o.solutions, o.count);
        GrewChain(sh, m, sols, count, o.solutions, o.count, t.solutions, t.count);
      }
    }
  }

  /// Recording the full grid o ended on, reached from m1 by a search that
  /// kept its record sound, keeps the record of m sound.
  lemma RecordSound(sh: Shape, m: Matrix, m1: Matrix, sols: seq<Matrix>, count: int, o: Run)
    requires IsMatrix(sh, m) && IsMatrix(sh, m1) && o.found && Sound(sh, m1, sols, count, o)
    requires Grew(sh, m, sols, count, o.solutions, o.count) && Completes(sh, m, o.grid)
    ensures var sols', count' := if o.grid in o.solutions then o.solutions else o.solutions + [o.grid],
                                 if o.grid in o.solutions then o.count else o.count + 1;
      Grew(sh, m, sols, count, sols', count') && o.grid in sols' && count' <= Cap(count) &&
      (count <= 1 && count' > 1 ==> o.grid == sols'[|sols'| - 1]) &&
      (count' > 1 ==> Sound(sh, m, sols, count, Run(true, o.grid, sols', count')))
  {
    var sols', count' := if o.grid in o.solutions then o.solutions else o.solutions + [o.grid],
                         if o.grid in o.solutions then o.count else o.count + 1;
    GrewRecord(sh, m, o.solutions, o.count, o.grid);
    GrewChain(sh, m, sols, count, o.solutions, o.count, sols', count');
  }

  /// A search that keeps sound a record grown from (sols, count) to at most
  /// one solution, and succeeds only on a second one, keeps (sols, count)
  /// sound.
  lemma SoundChain(sh: Shape, m: Matrix, sols: seq<Matrix>, count: int, sols': seq<Matrix>, count': int, t: Run)
    requires IsMatrix(sh, m) && Grew(sh, m, sols, count, sols', count') && count' <= 1
    requires Sound(sh, m, sols', count', t) && (t.found ==> t.count > 1 && t.grid in t.solutions)
    ensures Sound(sh, m, sols, count, t)
  {
    GrewChain(sh, m, sols, count, sols', count', t.solutions, t.count);
  }

  /// The step of `TriedSound` where the search below reached a full grid.
  lemma {:induction false} TriedRecorded(sh: Shape, m: Matrix, r: int, c: int, ps: seq<int>, i: nat, sols: seq<Matrix>, count: int)
    requires IsMatrix(sh, m) && InGrid(sh, r, c) && m[r][c] == 0
    requires i < |ps| && Choosable(sh, m, r, c, ps)
    requires var o := Solved(sh, Write(sh, m, r, c, ps[i]), sols, count);
      o.found && Sound(sh, Write(sh, m, r, c, ps[i]), sols, count, o) &&
      Grew(sh, m, sols, count, o.solutions, o.count) && Completes(sh, m, o.grid)
    ensures var o := Tried(sh, m, r, c, ps, i, sols, count);
      Sound(sh, m, sols, count, o) && (o.found ==> o.count > 1 && o.grid in o.solutions)
    decreases Empties(sh, m), 0, |ps| - i, 0
  {
    var o := Solved(sh, Write(sh, m, r, c, ps[i]), sols, count);
    var sols', count' := if o.grid in o.solutions then o.solutions else o.solutions + [o.grid],
                         if o.grid in o.solutions then o.count else o.count + 1;
    RecordSound(sh, m, Write(sh, m, r, c, ps[i]), sols, count, o);
    if count' <= 1 {
      var t := Tried(sh, m, r, c, ps, i + 1, sols', count');
      assert Tried(sh, m, r, c, ps, i, sols, count) == t;
      TriedSound(sh, m, r, c, ps, i + 1, sols', count');
      SoundChain(sh, m, sols, count, sols', count', t);
    } else {
      assert Tried(sh, m, r, c, ps, i, sols, count) == Run(true, o.grid, sols', count');
    }
  }

  /// `SolvePuzzle` misses no solution: each one is recorded or is the grid
  /// it ends on, unless it stopped on a second solution.
  lemma {:induction false} SolvedExhaustive(sh: Shape, m: Matrix, sols: seq<Matrix>, count: int)
    requires IsMatrix(sh, m)
    ensures Exhaustive(sh, m, Solved(sh, m, sols, count))
    decreases Empties(sh, m), 1
  {
    match FirstEmpty(sh, m)
    case None =>
      FilledCompletes(sh, m);
    case Some(p) =>
      var r, c := p.0, p.1;
      var ps := Allowed(sh, m, r, c);
      var o := Tried(sh, m, r, c, ps, 0, sols, count);
      assert Solved(sh, m, sols, count) == o;
      TriedExhaustive(sh, m, r, c, ps, 0, sols, count);
      assert ps[0..] == ps;
      if o.count <= 1 {
        forall s | Completes(sh, m, s) ensures s in o.solutions {
          CompletesDown(sh, m, r, c, s);
          assert s[r][c] in ps[0..];
        }
      }
  }

  /// `TryCell` from the i-th candidate on misses no solution whose code at
  /// (r, c) is one of the candidates still to try.
  lemma {:induction false} TriedExhaustive(sh: Shape, m: Matrix, r: int, c: int, ps: seq<int>, i: nat, sols: seq<Matrix>, count: int)
    requires IsMatrix(sh, m) && InGrid(sh, r, c) && m[r][c] == 0
    requires i <= |ps| && Choosable(sh, m, r, c, ps)
    ensures var o := Tried(sh, m, r, c, ps, i, sols, count);
      o.count > 1 || forall s | Completes(sh, m, s) && s[r][c] in ps[i..] :: s in o.solutions
    decreases Empties(sh, m), 0, |ps| - i
  {
    if i < |ps| {
      var v := ps[i];
      var m1 := Write(sh, m, r, c, v);
      WriteFills(sh, m, r, c, v);
      var o := Solved(sh, m1, sols, count);
      SolvedSound(sh, m1, sols, count);
      SolvedExhaustive(sh, m1, sols, count);
      var t := Tried(sh, m, r, c, ps, i, sols, count);
      var sols', count' := if o.found && o.grid !in o.solutions then o.solutions + [o.grid] else o.solutions,
                           if o.found && o.grid !in o.solutions then o.count + 1 else o.count;
      if o.found {
        assert o.grid in sols';
      }
      assert sols'[..|o.solutions|] == o.solutions;
      if !(o.found && count' > 1) {
        TriedExhaustive(sh, m, r, c, ps, i + 1, sols', count');
        TriedSound(sh, m, r, c, ps, i + 1, sols', count');
        assert t == Tried(sh, m, r, c, ps, i + 1, sols', count');
        if t.count <= 1 {
          forall s | Completes(sh, m, s) && s[r][c] in ps[i..] ensures s in t.solutions {
            assert t.solutions[..|sols'|] == sols';
            if s[r][c] == v {
              CompletesDown(sh, m, r, c, s);
              assert s in sols';
            } else {
              assert s[r][c] in ps[i + 1..];
            }
          }
        }
      }
    }
  }

  /// A fresh `BruteForce` (nothing on record) searching m: it records at most
  /// two solutions, distinct, each solving m, none at all when m is already
  /// full; it leaves m as it was unless it found a second solution, and then
  /// leaves that second solution in the matrix.
  lemma FreshSearch(sh: Shape, m: Matrix)
    requires IsMatrix(sh, m)
    ensures var o := Solved(sh, m, [], 0);
      0 <= o.count <= 2 && |o.solutions| == o.count && NoDups(o.solutions) &&
      (forall k | 0 <= k < o.count :: Completes(sh, m, o.solutions[k])) &&
      (Filled(sh, m) ==> o.count == 0) &&
      (o.count <= 1 ==> o.grid == m) &&
      (o.count == 2 ==> o.grid == o.solutions[1])
  {
    SolvedSound(sh, m, [], 0);
  }

  /// A fresh search that reports success stopped on a second solution.
  lemma FreshFound(sh: Shape, m: Matrix)
    requires IsMatrix(sh, m) && !Filled(sh, m)
    ensures var o := Solved(sh, m, [], 0);
      Sound(sh, m, [], 0, o) && Exhaustive(sh, m, o) && (o.found ==> o.count == 2)
  {
    SolvedSound(sh, m, [], 0);
    SolvedExhaustive(sh, m, [], 0);
  }

  /// A fresh search of a matrix with an empty cell records nothing exactly
  /// when the matrix has no solution.
  lemma FreshNone(sh: Shape, m: Matrix)
    requires IsMatrix(sh, m) && !Filled(sh, m)
    ensures Solved(sh, m, [], 0).count == 0 <==> forall s :: !Completes(sh, m, s)
  {
    var o := Solved(sh, m, [], 0);
    FreshFound(sh, m);
    if o.count != 0 {
      assert Completes(sh, m, o.solutions[0]);
    }
  }

  /// A fresh search of a matrix with an empty cell records exactly one
  /// solution exactly when the matrix has one and only one.
  lemma FreshUnique(sh: Shape, m: Matrix)
    requires IsMatrix(sh, m) && !Filled(sh, m)
    ensures Solved(sh, m, [], 0).count == 1 <==> Unique(sh, m)
  {
    var o := Solved(sh, m, [], 0);
    FreshFound(sh, m);
    if o.count == 1 {
      var s0 := o.solutions[0];
      assert Completes(sh, m, s0);
      assert forall t | Completes(sh, m, t) :: t == s0;
    } else if o.count == 2 {
      var s0, s1 := o.solutions[0], o.solutions[1];
      assert s0 != s1 && Completes(sh, m, s0) && Completes(sh, m, s1);
    } else {
      assert forall s :: !Completes(sh, m, s);
    }
  }

  /// A fresh search of a matrix with an empty cell records two solutions
  /// exactly when the matrix has two different ones.
  lemma FreshMany(sh: Shape, m: Matrix)
    requires IsMatrix(sh, m) && !Filled(sh, m)
    ensures Solved(sh, m, [], 0).count == 2 <==> exists s, t :: s != t && Completes(sh, m, s) && Completes(sh, m, t)
  {
    var o := Solved(sh, m, [], 0);
    FreshFound(sh, m);
    if o.count == 2 {
      var s0, s1 := o.solutions[0], o.solutions[1];
      assert s0 != s1 && Completes(sh, m, s0) && Completes(sh, m, s1);
    } else if o.count == 1 {
      var s0 := o.solutions[0];
      assert forall t | Completes(sh, m, t) :: t == s0;
    }
  }

  // ---------------------------------------------------------------------
  // The candidate scan

  /// Code u is in column c above row n, or in row r left of column n, at a
  /// cell other than (r, c).
  predicate LinesHold(sh: Shape, m: Matrix, r: int, c: int, u: int, n: int)
    requires IsMatrix(sh, m) && InGrid(sh, r, c) && n <= sh.size
  {
    exists k | 0 <= k < n :: (k != r && m[k][c] == u) || (k != c && m[r][k] == u)
  }

  /// Code u is in the box whose top left cell is (top, left), outside row r
  /// and column c, at a cell before (i, j) in row-major order.
  predicate BoxHolds(sh: Shape, m: Matrix, r: int, c: int, u: int, top: int, left: int, i: int, j: int)
    requires IsMatrix(sh, m)
  {
    exists a, b | top <= a < top + sh.boxRows && left <= b < left + sh.boxColumns &&
                  0 <= a < sh.size && 0 <= b < sh.size && Before(a, b, i, j) && a != r && b != c :: m[a][b] == u
  }

  /// The row and column scan and the box scan together find exactly the
  /// codes the other cells of the row, column and box hold.
  lemma HeldSplit(sh: Shape, m: Matrix, r: int, c: int, u: int)
    requires IsMatrix(sh, m) && InGrid(sh, r, c)
    ensures var top, left := BoxTop(sh, r), BoxLeft(sh, c);
      Held(sh, m, r, c, u) <==>
      LinesHold(sh, m, r, c, u, sh.size) || BoxHolds(sh, m, r, c, u, top, left, top + sh.boxRows, left)
  {
    var R, C := sh.boxRows, sh.boxColumns;
    var top, left := BoxTop(sh, r), BoxLeft(sh, c);
    BoxTopBounds(sh, r);
    BoxLeftBounds(sh, c);
    if Held(sh, m, r, c, u) {
      var i, j :| 0 <= i < sh.size && 0 <= j < sh.size && Neighbour(sh, r, c, i, j) && m[i][j] == u;
      if i == r {
        assert LinesHold(sh, m, r, c, u, sh.size) by { assert j != c && m[r][j] == u; }
      } else if j == c {
        assert LinesHold(sh, m, r, c, u, sh.size) by { assert i != r && m[i][c] == u; }
      } else {
        BoxTopBounds(sh, i);
        BoxLeftBounds(sh, j);
        assert BoxTop(sh, i) == top && BoxLeft(sh, j) == left;
        assert Before(i, j, top + R, left);
      }
    }
    if LinesHold(sh, m, r, c, u, sh.size) {
      var k :| 0 <= k < sh.size && ((k != r && m[k][c] == u) || (k != c && m[r][k] == u));
      if k != r && m[k][c] == u {
        assert Neighbour(sh, r, c, k, c);
      } else {
        assert Neighbour(sh, r, c, r, k);
      }
    }
    if BoxHolds(sh, m, r, c, u, top, left, top + R, left) {
      var a, b :| top <= a < top + R && left <= b < left + C && 0 <= a < sh.size && 0 <= b < sh.size &&
                  Before(a, b, top + R, left) && a != r && b != c && m[a][b] == u;
      DivModUnique(a, R, r / R, a - top);
      DivModUnique(b, C, c / C, b - left);
      assert Neighbour(sh, r, c, a, b);
    }
  }

  /// `List.Remove` on an ascending list drops just that code.
  lemma Strike(values: seq<int>, w: int)
    requires Increasing(values)
    ensures Increasing(RemoveFirst(values, w))
    ensures forall u :: u in RemoveFirst(values, w) <==> u in values && u != w
  {
    assert NoDups(values);
    RemoveFirstIsWithout(values, w);
    WithoutMembership(values, w);
    WithoutIncreasing(values, w);
  }

  /// The codes of an `int[,]`, row by row.
  function Codes(a: array2<int>): (m: Matrix)
    reads a
    ensures |m| == a.Length0
    ensures forall i | 0 <= i < a.Length0 :: |m[i]| == a.Length1
    ensures forall i, j | 0 <= i < a.Length0 && 0 <= j < a.Length1 :: m[i][j] == a[i, j]
  {
    seq(a.Length0, i requires 0 <= i < a.Length0 reads a =>
      seq(a.Length1, j requires 0 <= j < a.Length1 reads a => a[i, j]))
  }

  /// `PossibleValues`: start from 1..N; remove the code of each other cell of
  /// the column and of the row, then of each cell of the box outside both.
  method PossibleValues(sh: Shape, a: array2<int>, r: int, c: int) returns (values: seq<int>)
    requires sh.Valid() && a.Length0 == sh.size && a.Length1 == sh.size && InGrid(sh, r, c)
    ensures values == Allowed(sh, Codes(a), r, c)
  {
    ghost var m := Codes(a);
    values := [];
    for v := 1 to sh.size + 1
      invariant |values| == v - 1 && forall k | 0 <= k < |values| :: values[k] == k + 1
    {
      values := values + [v];
    }
    assert values == Range(1, sh.size + 1);
    RangeIncreasing(1, sh.size + 1);
    for i := 0 to sh.size
      invariant Increasing(values)
      invariant forall u :: u in values <==> 1 <= u <= sh.size && !LinesHold(sh, m, r, c, u, i)
    {
      assert a[i, c] == m[i][c] && a[r, i] == m[r][i];
      if i != r && a[i, c] != 0 {
        Strike(values, a[i, c]);
        values := RemoveFirst(values, a[i, c]);
      }
      if i != c && a[r, i] != 0 {
        Strike(values, a[r, i]);
        values := RemoveFirst(values, a[r, i]);
      }
      LinesStep(sh, m, r, c, i);
    }
    var top, left := BoxTop(sh, r), BoxLeft(sh, c);
    BoxTopBounds(sh, r);
    BoxLeftBounds(sh, c);
    for row := top to top + sh.boxRows
      invariant Increasing(values)
      invariant forall u :: u in values <==>
        1 <= u <= sh.size && !LinesHold(sh, m, r, c, u, sh.size) && !BoxHolds(sh, m, r, c, u, top, left, row, left)
    {
      for col := left to left + sh.boxColumns
        invariant Increasing(values)
        invariant forall u :: u in values <==>
          1 <= u <= sh.size && !LinesHold(sh, m, r, c, u, sh.size) && !BoxHolds(sh, m, r, c, u, top, left, row, col)
      {
        assert a[row, col] == m[row][col];
        if row != r && col != c && a[row, col] != 0 {
          Strike(values, a[row, col]);
          values := RemoveFirst(values, a[row, col]);
        }
        BoxStep(sh, m, r, c, top, left, row, col);
      }
      BoxRowEnd(sh, m, r, c, top, left, row, left + sh.boxColumns);
    }
    ScanDone(sh, m, r, c, values);
  }

  /// The list left by the two scans is the candidate list.
  lemma ScanDone(sh: Shape, m: Matrix, r: int, c: int, values: seq<int>)
    requires IsMatrix(sh, m) && InGrid(sh, r, c) && Increasing(values)
    requires var top, left := BoxTop(sh, r), BoxLeft(sh, c);
      forall u :: u in values <==>
        1 <= u <= sh.size && !LinesHold(sh, m, r, c, u, sh.size) && !BoxHolds(sh, m, r, c, u, top, left, top + sh.boxRows, left)
    ensures values == Allowed(sh, m, r, c)
  {
    forall u ensures u in values <==> 1 <= u <= sh.size && !Held(sh, m, r, c, u) {
      HeldSplit(sh, m, r, c, u);
    }
    IncreasingUnique(values, Allowed(sh, m, r, c));
  }

  /// One more cell of the column and row scan.
  lemma LinesStep(sh: Shape, m: Matrix, r: int, c: int, i: int)
    requires IsMatrix(sh, m) && InGrid(sh, r, c) && 0 <= i < sh.size
    ensures forall u :: LinesHold(sh, m, r, c, u, i + 1) <==>
      LinesHold(sh, m, r, c, u, i) || (i != r && m[i][c] == u) || (i != c && m[r][i] == u)
  {
    forall u ensures LinesHold(sh, m, r, c, u, i + 1) <==>
      LinesHold(sh, m, r, c, u, i) || (i != r && m[i][c] == u) || (i != c && m[r][i] == u)
    {
      if LinesHold(sh, m, r, c, u, i + 1) && !((i != r && m[i][c] == u) || (i != c && m[r][i] == u)) {
        var k :| 0 <= k < i + 1 && ((k != r && m[k][c] == u) || (k != c && m[r][k] == u));
        assert k < i;
      }
    }
  }

  /// One more cell of the box scan.
  lemma BoxStep(sh: Shape, m: Matrix, r: int, c: int, top: int, left: int, row: int, col: int)
    requires IsMatrix(sh, m) && top <= row < top + sh.boxRows && left <= col < left + sh.boxColumns
    requires 0 <= row < sh.size && 0 <= col < sh.size
    ensures forall u :: BoxHolds(sh, m, r, c, u, top, left, row, col + 1) <==>
      BoxHolds(sh, m, r, c, u, top, left, row, col) || (row != r && col != c && m[row][col] == u)
  {
    forall u ensures BoxHolds(sh, m, r, c, u, top, left, row, col + 1) <==>
      BoxHolds(sh, m, r, c, u, top, left, row, col) || (row != r && col != c && m[row][col] == u)
    {
      if BoxHolds(sh, m, r, c, u, top, left, row, col + 1) && !(row != r && col != c && m[row][col] == u) {
        var a, b :| top <= a < top + sh.boxRows && left <= b < left + sh.boxColumns &&
                    0 <= a < sh.size && 0 <= b < sh.size && Before(a, b, row, col + 1) && a != r && b != c && m[a][b] == u;
        assert Before(a, b, row, col);
      }
      if row != r && col != c && m[row][col] == u {
        assert Before(row, col, row, col + 1);
      }
    }
  }

  /// A finished row of the box scan.
  lemma BoxRowEnd(sh: Shape, m: Matrix, r: int, c: int, top: int, left: int, row: int, right: int)
    requires IsMatrix(sh, m) && right == left + sh.boxColumns
    ensures forall u :: BoxHolds(sh, m, r, c, u, top, left, row, right) <==> BoxHolds(sh, m, r, c, u, top, left, row + 1, left)
  {
    forall u ensures BoxHolds(sh, m, r, c, u, top, left, row, right) <==> BoxHolds(sh, m, r, c, u, top, left, row + 1, left) {
      if BoxHolds(sh, m, r, c, u, top, left, row + 1, left) {
        var a, b :| top <= a < top + sh.boxRows && left <= b < right &&
                    0 <= a < sh.size && 0 <= b < sh.size && Before(a, b, row + 1, left) && a != r && b != c && m[a][b] == u;
        assert Before(a, b, row, right);
      }
    }
  }

  // ---------------------------------------------------------------------
  // The class

  /// The error `getSolution` raises for an index its guard rejects.
  function InvalidNumber(count: int): string
  {
    "Solution number invalid, must be between 0 and " + Format(count)
  }

  /// A tag standing for the `ArgumentOutOfRangeException` the list indexer
  /// raises for an index past the end; the exception's own text is not modelled.
  const OutOfRange := "Index was out of range"

  /// A cell after `Solve(ref Puzzle)` wrote code v into it.
  function Entered(x: Cell, v: int): (y: Cell)
    ensures y.content == v && y.algorithmEntered
    ensures y == x.(content := v, algorithmEntered := true)
  {
    x.(content := v, algorithmEntered := true)
  }

  /// The codes of a grid of cells.
  function Board(sh: Shape, g: Grid): (m: Matrix)
    requires WellFormed(sh, g)
    ensures IsMatrix(sh, m) && forall i, j | InGrid(sh, i, j) :: m[i][j] == g[i][j].content
  {
    seq(sh.size, i requires 0 <= i < sh.size => seq(sh.size, j requires 0 <= j < sh.size => g[i][j].content))
  }

  class BruteForce {
    /// `m_PuzzleSize` and `m_SubGridSize`.
    var shape: Shape
    /// `m_Solutions`, each a copy of the matrix taken when it was recorded.
    var solutions: seq<Matrix>
    /// `m_NumberOfSolutions`.
    var count: int

    constructor ()
      ensures solutions == [] && count == 0 && Recorded()
    {
      shape := Shape(0, 0, 0);
      solutions := [];
      count := 0;
    }

    /// The counter counts the record, and every recorded solution has the
    /// shape being searched.
    predicate Recorded()
      reads this
    {
      count == |solutions| && forall k | 0 <= k < |solutions| :: IsMatrix(shape, solutions[k])
    }

    /// `Solve(int[,], int, GridSize)`: search a in place, then report whether
    /// exactly one solution is on record.
    method Solve(a: array2<int>, sh: Shape) returns (unique: bool)
      requires sh.Valid() && a.Length0 == sh.size && a.Length1 == sh.size
      requires count == |solutions| && forall k | 0 <= k < |solutions| :: IsMatrix(sh, solutions[k])
      modifies this, a
      ensures shape == sh && Recorded()
      ensures var o := Solved(sh, old(Codes(a)), old(solutions), old(count));
        Codes(a) == o.grid && solutions == o.solutions && count == o.count
      ensures unique <==> count == 1
      ensures old(solutions) == [] && old(count) == 0 && !Filled(sh, old(Codes(a))) ==>
        (unique <==> Unique(sh, old(Codes(a))))
    {
      ghost var m := Codes(a);
      shape := sh;
      var solved := SolvePuzzle(a);
      unique := count == 1;
      if old(solutions) == [] && old(count) == 0 && !Filled(sh, m) {
        FreshUnique(sh, m);
      }
    }

    /// `Solve(ref Puzzle)`: search a copy of the puzzle's codes; when exactly
    /// one solution is on record, write it into every cell, givens included,
    /// and mark every cell as entered by an algorithm.
    method SolveInPlace(p: Puzzle) returns (unique: bool)
      requires p.Valid()
      requires count == |solutions| && forall k | 0 <= k < |solutions| :: IsMatrix(p.shape, solutions[k])
      modifies this, p
      ensures p.shape == old(p.shape) && p.symbols == old(p.symbols) && p.Valid()
      ensures shape == p.shape && Recorded()
      ensures var o := Solved(old(p.shape), Board(old(p.shape), old(p.grid)), old(solutions), old(count));
        solutions == o.solutions && count == o.count
      ensures unique <==> count == 1
      ensures unique ==> |solutions| == 1 && forall i, j | InGrid(p.shape, i, j) :: p.grid[i][j] == Entered(old(p.grid)[i][j], solutions[0][i][j])
      ensures !unique ==> p.grid == old(p.grid)
      ensures old(solutions) == [] && old(count) == 0 && !Filled(old(p.shape), Board(old(p.shape), old(p.grid))) ==>
        (unique <==> Unique(old(p.shape), Board(old(p.shape), old(p.grid))))
    {
      shape := p.shape;
      var a := p.PuzzleAsArray();
      assert Codes(a) == Board(p.shape, p.grid) by {
        MatrixExt(p.shape, Codes(a), Board(p.shape, p.grid));
      }
      ghost var m := Codes(a);
      var solved := SolvePuzzle(a);
      if old(solutions) == [] && old(count) == 0 && !Filled(p.shape, m) {
        FreshUnique(p.shape, m);
      }
      if count == 1 {
        Enter(p, solutions[0]);
        return true;
      }
      return false;
    }

    /// The loop of `Solve(ref Puzzle)` that copies the solution into the cells.
    method Enter(p: Puzzle, s: Matrix)
      requires p.Valid() && IsMatrix(p.shape, s)
      modifies p
      ensures p.shape == old(p.shape) && p.symbols == old(p.symbols) && p.Valid()
      ensures forall i, j | InGrid(p.shape, i, j) :: p.grid[i][j] == Entered(old(p.grid)[i][j], s[i][j])
    {
      ghost var g0 := p.grid;
      for i := 0 to p.shape.size
        invariant p.shape == old(p.shape) && p.symbols == old(p.symbols) && p.Valid()
        invariant forall a, b | InGrid(p.shape, a, b) ::
          p.grid[a][b] == if a < i then Entered(g0[a][b], s[a][b]) else g0[a][b]
      {
        for j := 0 to p.shape.size
          invariant p.shape == old(p.shape) && p.symbols == old(p.symbols) && p.Valid()
          invariant forall a, b | InGrid(p.shape, a, b) ::
            p.grid[a][b] == if Before(a, b, i, j) then Entered(g0[a][b], s[a][b]) else g0[a][b]
        {
          PutKeepsOk(p.shape, p.grid, i, j, Entered(p.grid[i][j], s[i][j]));
          p.grid := Put(p.shape, p.grid, i, j, Entered(p.grid[i][j], s[i][j]));
        }
      }
    }

    /// `SolvePuzzle`: try the first empty cell, or succeed on a full grid.
    method SolvePuzzle(a: array2<int>) returns (solved: bool)
      requires shape.Valid() && a.Length0 == shape.size && a.Length1 == shape.size && Recorded()
      modifies this, a
      decreases Empties(shape, Codes(a)), 1
      ensures shape == old(shape) && Recorded()
      ensures Run(solved, Codes(a), solutions, count) == Solved(shape, old(Codes(a)), old(solutions), old(count))
    {
      var p := FindEmpty(a);
      if p.Some? {
        solved := TryCell(a, p.value.0, p.value.1);
      } else {
        solved := true;
      }
    }

    /// The scan at the head of `SolvePuzzle`.
    method FindEmpty(a: array2<int>) returns (p: Option<(int, int)>)
      requires shape.Valid() && a.Length0 == shape.size && a.Length1 == shape.size
      ensures p == FirstEmpty(shape, Codes(a))
    {
      ghost var m := Codes(a);
      for row := 0 to shape.size
        invariant EmptyFrom(shape, m, row) == FirstEmpty(shape, m)
      {
        for col := 0 to shape.size
          invariant EmptyInRow(m[row], col) == EmptyInRow(m[row], 0)
        {
          if a[row, col] == 0 {
            assert m[row][col] == 0;
            return Some((row, col));
          }
        }
      }
      return None;
    }

    /// `TryCell`: write each candidate of the empty cell (r, c) in turn and
    /// search on; record each full grid reached that is new, and stop on a
    /// second recorded solution; when the candidates run out, empty the cell.
    method TryCell(a: array2<int>, r: int, c: int) returns (solved: bool)
      requires shape.Valid() && a.Length0 == shape.size && a.Length1 == shape.size && Recorded()
      requires InGrid(shape, r, c) && a[r, c] == 0
      modifies this, a
      decreases Empties(shape, Codes(a)), 0
      ensures shape == old(shape) && Recorded()
      ensures Run(solved, Codes(a), solutions, count) ==
        Tried(shape, old(Codes(a)), r, c, Allowed(shape, old(Codes(a)), r, c), 0, old(solutions), old(count))
    {
      ghost var m := Codes(a);
      var possibles := PossibleValues(shape, a, r, c);
      assert m == Write(shape, m, r, c, 0) by {
        MatrixExt(shape, m, Write(shape, m, r, c, 0));
      }
      for i := 0 to |possibles|
        invariant shape == old(shape) && Recorded()
        invariant Codes(a) == Write(shape, m, r, c, a[r, c])
        invariant Tried(shape, m, r, c, possibles, i, solutions, count) ==
          Tried(shape, m, r, c, possibles, 0, old(solutions), old(count))
      {
        var stop := Attempt(a, r, c, m, possibles, i);
        if stop {
          return true;
        }
      }
      a[r, c] := 0;
      assert Codes(a) == m by {
        MatrixExt(shape, Codes(a), m);
      }
      solved := false;
    }

    /// One round of the loop of `TryCell`: write the i-th candidate, search
    /// on, and record a full grid reached when it is new; `stop` when a second
    /// solution is on record.
    method Attempt(a: array2<int>, r: int, c: int, ghost m: Matrix, possibles: seq<int>, i: int) returns (stop: bool)
      requires shape.Valid() && a.Length0 == shape.size && a.Length1 == shape.size && Recorded()
      requires IsMatrix(shape, m) && InGrid(shape, r, c) && m[r][c] == 0
      requires 0 <= i < |possibles| && Choosable(shape, m, r, c, possibles)
      requires Codes(a) == Write(shape, m, r, c, a[r, c])
      modifies this, a
      decreases Empties(shape, m), 0, 0
      ensures shape == old(shape) && Recorded()
      ensures stop ==> Run(true, Codes(a), solutions, count) == Tried(shape, m, r, c, possibles, i, old(solutions), old(count))
      ensures !stop ==> Codes(a) == Write(shape, m, r, c, a[r, c])
      ensures !stop ==>
        Tried(shape, m, r, c, possibles, i + 1, solutions, count) == Tried(shape, m, r, c, possibles, i, old(solutions), old(count))
    {
      a[r, c] := possibles[i];
      ghost var m1 := Write(shape, m, r, c, possibles[i]);
      assert Codes(a) == m1 by {
        MatrixExt(shape, Codes(a), m1);
      }
      WriteFills(shape, m, r, c, possibles[i]);
      var solved := SolvePuzzle(a);
      ghost var o := Solved(shape, m1, old(solutions), old(count));
      assert o == Run(solved, Codes(a), solutions, count);
      SolvedSound(shape, m1, old(solutions), old(count));
      stop := false;
      if solved {
        var known := Contains(solutions, a);
        if !known {
          var copy := CopyPuzzle(a);
          solutions := solutions + [copy];
          count := count + 1;
        }
        stop := count > 1;
      } else {
        assert Codes(a) == m1;
      }
    }

    /// `Contains`: whether a holds one of the listed matrices.
    method Contains(list: seq<Matrix>, a: array2<int>) returns (known: bool)
      requires forall k | 0 <= k < |list| :: IsMatrix(shape, list[k])
      requires a.Length0 == shape.size && a.Length1 == shape.size
      ensures known <==> Codes(a) in list
    {
      for k := 0 to |list|
        invariant Codes(a) !in list[..k]
      {
        var same := Equals(list[k], a);
        if same {
          return true;
        }
      }
      assert list[..|list|] == list;
      return false;
    }

    /// `Equals`: cell by cell, whether a holds the matrix s.
    method Equals(s: Matrix, a: array2<int>) returns (same: bool)
      requires IsMatrix(shape, s) && a.Length0 == shape.size && a.Length1 == shape.size
      ensures same <==> s == Codes(a)
    {
      for row := 0 to |s|
        invariant forall i, j | 0 <= i < row && 0 <= j < shape.size :: s[i][j] == a[i, j]
      {
        for col := 0 to |s[row]|
          invariant forall j | 0 <= j < col :: s[row][j] == a[row, j]
        {
          if s[row][col] != a[row, col] {
            assert s[row][col] != Codes(a)[row][col];
            return false;
          }
        }
      }
      MatrixExt(shape, s, Codes(a));
      return true;
    }

    /// `CopyPuzzle`: the codes of a, taken row by row.
    method CopyPuzzle(a: array2<int>) returns (s: Matrix)
      requires shape.Valid() && a.Length0 == shape.size && a.Length1 == shape.size
      ensures s == Codes(a)
    {
      s := [];
      for row := 0 to shape.size
        invariant |s| == row && forall i | 0 <= i < row :: s[i] == Codes(a)[i]
      {
        var line := [];
        for col := 0 to shape.size
          invariant |line| == col && forall j | 0 <= j < col :: line[j] == a[row, j]
        {
          line := line + [a[row, col]];
        }
        assert line == Codes(a)[row];
        s := s + [line];
      }
    }

    /// `getSolution` as written: its guard lets n == Count through, and the
    /// list indexer then fails with its own error.
    function SolutionAsWritten(n: int): (r: Result<Matrix>)
      reads this
      ensures r.Ok? <==> 0 <= n < |solutions|
      ensures r.Ok? ==> r.value == solutions[n]
      ensures n == |solutions| ==> r == Err(OutOfRange)
    {
      if n > |solutions| || n < 0 then Err(InvalidNumber(|solutions|))
      else if n == |solutions| then Err(OutOfRange)
      else Ok(solutions[n])
    }

    /// `getSolution` with the guard the error message describes: every index
    /// outside 0..Count-1 gets the guard's error.
    function Solution(n: int): (r: Result<Matrix>)
      reads this
      ensures r.Ok? <==> 0 <= n < |solutions|
      ensures r.Ok? ==> r.value == solutions[n]
      ensures r.Err? ==> r.error == InvalidNumber(|solutions|)
    {
      if n >= |solutions| || n < 0 then Err(InvalidNumber(|solutions|))
      else Ok(solutions[n])
    }
  }

  /// The index one past the last recorded solution slips past the guard of
  /// `getSolution` as written.
  lemma GuardMissesCount(b: BruteForce)
    ensures b.SolutionAsWritten(|b.solutions|) == Err(OutOfRange)
    ensures b.Solution(|b.solutions|) == Err(InvalidNumber(|b.solutions|))
    ensures OutOfRange != InvalidNumber(|b.solutions|)
  {
    var prefix := "Solution number invalid, must be between 0 and ";
    var e := InvalidNumber(|b.solutions|);
    assert e == prefix + Format(|b.solutions|);
    assert |e| >= |prefix| > |OutOfRange|;
  }
}
