/// `Generator`: write random candidates into random empty cells of a blank
/// matrix until a probe of the brute force search finds a solution, then clear
/// random clues while the search still finds exactly one solution, keeping the
/// clearest such matrix and restarting from the accepted one up to ten times.
module Generation {
  import opened Wrappers
  import opened Relations
  import opened Puzzles
  import opened BruteForceSearch
  import Symbols

  /// `int.MaxValue`, the first `lowestNumber`.
  const IntMax: int := 0x7FFF_FFFF

  /// `(N * N) / (N / 2)`: the fill phase probes once it has entered more
  /// codes than this.
  function Threshold(n: int): int
    requires n >= 2
  {
    (n * n) / (n / 2)
  }

  /// `numberOfHints`: a failed probe at or below this many clues ends the
  /// reduction.
  function HintTarget(n: int): int
    requires n >= 2
  {
    Threshold(n) + (n * n) / 4
  }

  /// From N = 4 on, the probe comes before the matrix is full.
  lemma ThresholdBelow(n: int)
    requires n >= 4
    ensures 0 < Threshold(n) && Threshold(n) + 1 < n * n
  {
    var h, t := n / 2, Threshold(n);
    assert 2 <= h;
    assert n * n >= 4 * n >= 16;
    assert t * h <= n * n by {
      assert n * n == h * t + (n * n) % h;
    }
    assert t * 2 <= t * h by {
      assert t >= 0;
    }
    assert h * 1 <= n * n;
  }

  // ---------------------------------------------------------------------
  // Counting positions

  /// The positions (r, 0) .. (r, n - 1).
  function RowPositions(r: int, n: nat): (s: set<(int, int)>)
    ensures forall p :: p in s <==> p.0 == r && 0 <= p.1 < n
    ensures |s| == n
  {
    if n == 0 then {}
    else
      var s := RowPositions(r, n - 1);
      assert (r, n - 1) !in s;
      s + {(r, n - 1)}
  }

  /// The positions of the first k rows of n columns.
  function Positions(k: nat, n: nat): (s: set<(int, int)>)
    ensures forall p :: p in s <==> 0 <= p.0 < k && 0 <= p.1 < n
    ensures |s| == k * n
  {
    if k == 0 then {}
    else
      var s, t := Positions(k - 1, n), RowPositions(k - 1, n);
      assert s * t == {} by {
        forall p | p in t ensures p !in s { }
      }
      s + t
  }

  /// A blank matrix has N * N empty cells and breaks no rule.
  lemma BlankFacts(sh: Shape, m: Matrix)
    requires IsMatrix(sh, m) && forall i, j | InGrid(sh, i, j) :: m[i][j] == 0
    ensures |Empties(sh, m)| == sh.size * sh.size && Proper(sh, m)
  {
    var e, p := Empties(sh, m), Positions(sh.size, sh.size);
    forall q | q in p ensures q in e {
      assert m[q.0][q.1] == 0;
    }
    assert e == p;
  }

  // ---------------------------------------------------------------------
  // Matrices the generator builds

  /// Every code of m is 1..N and no other cell of its row, column or box
  /// holds it.
  predicate Proper(sh: Shape, m: Matrix)
    requires IsMatrix(sh, m)
  {
    forall i, j | 0 <= i < sh.size && 0 <= j < sh.size && m[i][j] != 0 :: 1 <= m[i][j] <= sh.size && !Held(sh, m, i, j, m[i][j])
  }

  /// f keeps some codes of m and clears the others.
  predicate Cleared(sh: Shape, m: Matrix, f: Matrix)
    requires IsMatrix(sh, m) && IsMatrix(sh, f)
  {
    forall i, j | 0 <= i < sh.size && 0 <= j < sh.size :: f[i][j] == 0 || f[i][j] == m[i][j]
  }

  /// The positions of the clues.
  function Givens(sh: Shape, m: Matrix): set<(int, int)>
    requires IsMatrix(sh, m)
  {
    set i, j | 0 <= i < sh.size && 0 <= j < sh.size && m[i][j] != 0 :: (i, j)
  }

  /// Writing a candidate into an empty cell fills exactly that cell and keeps
  /// the matrix within the rules.
  lemma SowStep(sh: Shape, m: Matrix, r: int, c: int, v: int)
    requires IsMatrix(sh, m) && Proper(sh, m) && InGrid(sh, r, c) && m[r][c] == 0
    requires v in Allowed(sh, m, r, c)
    ensures var m' := Write(sh, m, r, c, v);
      Proper(sh, m') && Empties(sh, m') == Empties(sh, m) - {(r, c)} && (r, c) in Empties(sh, m)
  {
    var m' := Write(sh, m, r, c, v);
    forall i, j, a, b | InGrid(sh, i, j) && InGrid(sh, a, b) && Neighbour(sh, i, j, a, b) && m'[i][j] != 0
      ensures m'[a][b] != m'[i][j]
    {
      if i == r && j == c {
        assert m'[a][b] == m[a][b];
      } else if a == r && b == c {
        assert Neighbour(sh, r, c, i, j);
      }
    }
    assert Empties(sh, m') == Empties(sh, m) - {(r, c)};
  }

  /// Clearing a clue removes exactly that clue.
  lemma ClearStep(sh: Shape, m: Matrix, r: int, c: int)
    requires IsMatrix(sh, m) && (r, c) in Givens(sh, m)
    ensures Givens(sh, Write(sh, m, r, c, 0)) == Givens(sh, m) - {(r, c)}
  {
  }

  /// A solution of a matrix within the rules is full and within the rules
  /// itself: a clue's code cannot reappear among its neighbours, since an
  /// empty cell only takes codes its neighbours do not hold.
  lemma CompletesProper(sh: Shape, m: Matrix, s: Matrix)
    requires IsMatrix(sh, m) && Proper(sh, m) && Completes(sh, m, s)
    ensures Filled(sh, s) && Proper(sh, s)
  {
    forall i, j, a, b | InGrid(sh, i, j) && InGrid(sh, a, b) && Neighbour(sh, i, j, a, b)
      ensures s[a][b] != s[i][j]
    {
      if m[i][j] != 0 && m[a][b] == 0 {
        assert Neighbour(sh, a, b, i, j);
      }
    }
  }

  /// A full matrix within the rules solves every matrix made by clearing
  /// some of its codes.
  lemma ClearedCompletes(sh: Shape, s: Matrix, f: Matrix)
    requires IsMatrix(sh, s) && IsMatrix(sh, f)
    requires Filled(sh, s) && Proper(sh, s) && Cleared(sh, s, f)
    ensures Completes(sh, f, s)
  {
  }

  /// A probe that found a solution of a seed within the rules leaves behind
  /// a matrix some full matrix within the rules extends: the seed itself
  /// (one solution, the search restores every cell) or its second solution.
  lemma AcceptedSolution(sh: Shape, seed: Matrix) returns (s: Matrix)
    requires IsMatrix(sh, seed) && Proper(sh, seed) && Solved(sh, seed, [], 0).count > 0
    ensures IsMatrix(sh, s) && IsMatrix(sh, Solved(sh, seed, [], 0).grid)
    ensures Filled(sh, s) && Proper(sh, s) && Cleared(sh, s, Solved(sh, seed, [], 0).grid)
  {
    var o := Solved(sh, seed, [], 0);
    FreshSearch(sh, seed);
    s := o.solutions[o.count - 1];
    assert Completes(sh, seed, s);
    CompletesProper(sh, seed, s);
  }

  /// Clearing codes twice is clearing codes.
  lemma ClearedChain(sh: Shape, a: Matrix, b: Matrix, c: Matrix)
    requires IsMatrix(sh, a) && IsMatrix(sh, b) && IsMatrix(sh, c)
    requires Cleared(sh, a, b) && Cleared(sh, b, c)
    ensures Cleared(sh, a, c)
  {
  }

  /// `new int[N, N]`: a blank matrix.
  method Blank(sh: Shape) returns (a: array2<int>)
    requires sh.Valid()
    ensures fresh(a) && a.Length0 == sh.size && a.Length1 == sh.size
    ensures forall i, j | InGrid(sh, i, j) :: a[i, j] == 0
    ensures Proper(sh, Codes(a)) && |Empties(sh, Codes(a))| == sh.size * sh.size
  {
    a := new int[sh.size, sh.size]((i, j) => 0);
    BlankFacts(sh, Codes(a));
  }

  /// One step of the fill phase of `GeneratePuzzle`: pick an empty cell and, when it has candidates, write one
  /// of them there.
  method SowCell(sh: Shape, a: array2<int>) returns (row: int, col: int, v: int, written: bool)
    requires sh.Valid() && a.Length0 == sh.size && a.Length1 == sh.size
    requires Proper(sh, Codes(a)) && |Empties(sh, Codes(a))| > 0
    modifies a
    ensures (row, col) in old(Empties(sh, Codes(a)))
    ensures written <==> Allowed(sh, old(Codes(a)), row, col) != []
    ensures written ==> v in Allowed(sh, old(Codes(a)), row, col) && Codes(a) == Write(sh, old(Codes(a)), row, col, v)
    ensures !written ==> Codes(a) == old(Codes(a))
    ensures Proper(sh, Codes(a))
    ensures written ==> |Empties(sh, Codes(a))| == |old(Empties(sh, Codes(a)))| - 1
  {
    ghost var m := Codes(a);
    var q :| q in Empties(sh, Codes(a));
    row, col := q.0, q.1;
    var possibles := PossibleValues(sh, a, row, col);
    written := |possibles| > 0;
    v := 0;
    if written {
      var k :| 0 <= k < |possibles|;
      v := possibles[k];
      SowStep(sh, m, row, col, v);
      a[row, col] := v;
      MatrixExt(sh, Codes(a), Write(sh, m, row, col, v));
    }
  }

  /// The reduction phase's pick: clear a random clue of a.
  method ClearClue(sh: Shape, a: array2<int>, ghost m: Matrix) returns (row: int, col: int)
    requires IsMatrix(sh, m) && a.Length0 == sh.size && a.Length1 == sh.size && Holds(a, m)
    requires Givens(sh, m) != {}
    modifies a
    ensures (row, col) in Givens(sh, m) && Holds(a, Write(sh, m, row, col, 0))
  {
    ghost var q :| q in Givens(sh, m);
    assert InGrid(sh, q.0, q.1) && a[q.0, q.1] != 0;
    var r, c :| 0 <= r < a.Length0 && 0 <= c < a.Length1 && a[r, c] != 0;
    row, col := r, c;
    a[row, col] := 0;
  }

  /// What the reduction keeps from round to round, over the accepted matrix
  /// start: the current matrix and the kept one are start
  /// with some codes cleared; the clue counter exceeds the current clues by
  /// the empty cells of start; at most ten restarts are used; and the kept
  /// matrix is start, before any record, or has a single solution.
  ghost predicate Reducing(sh: Shape, start: Matrix, cur: Matrix, kept: Matrix, clues: int, restarts: int, lowest: int)
  {
    IsMatrix(sh, start) && IsMatrix(sh, cur) && IsMatrix(sh, kept) && 0 <= restarts <= 10 &&
    Cleared(sh, start, cur) && Cleared(sh, start, kept) &&
    clues - |Givens(sh, cur)| == sh.size * sh.size - |Givens(sh, start)| &&
    ((lowest == IntMax && kept == start) || (lowest < IntMax && !Filled(sh, kept) && Solved(sh, kept, [], 0).count == 1))
  }

  /// The reduction starts from copies of the accepted matrix, the counter at
  /// N * N and nothing recorded.
  lemma ReducingStart(sh: Shape, start: Matrix)
    requires IsMatrix(sh, start)
    ensures Reducing(sh, start, start, start, sh.size * sh.size, 0, IntMax)
  {
  }

  /// Clearing a clue counts one clue fewer, leaves an empty cell and brings
  /// the round measure down.
  lemma ReducingClear(sh: Shape, start: Matrix, cur: Matrix, kept: Matrix, clues: int, restarts: int, lowest: int, r: int, c: int)
    requires Reducing(sh, start, cur, kept, clues, restarts, lowest) && (r, c) in Givens(sh, cur)
    ensures var cur' := Write(sh, cur, r, c, 0);
      Reducing(sh, start, cur', kept, clues - 1, restarts, lowest) &&
      !Filled(sh, cur') && Givens(sh, cur') < Givens(sh, cur)
  {
    var cur' := Write(sh, cur, r, c, 0);
    ClearStep(sh, cur, r, c);
    assert cur'[r][c] == 0;
  }

  /// Keeping a current matrix with a single solution at a counter below the
  /// lowest yet.
  lemma ReducingRecord(sh: Shape, start: Matrix, cur: Matrix, kept: Matrix, clues: int, restarts: int, lowest: int)
    requires Reducing(sh, start, cur, kept, clues, restarts, lowest)
    requires !Filled(sh, cur) && Solved(sh, cur, [], 0).count == 1 && clues < lowest
    ensures Reducing(sh, start, cur, cur, clues, restarts, clues)
  {
  }

  /// Restarting from the accepted matrix with the counter back at N * N.
  lemma ReducingRestart(sh: Shape, start: Matrix, cur: Matrix, kept: Matrix, clues: int, restarts: int, lowest: int)
    requires Reducing(sh, start, cur, kept, clues, restarts, lowest) && restarts < 10
    ensures Reducing(sh, start, start, kept, sh.size * sh.size, restarts + 1, lowest)
  {
  }

  /// a holds the codes of m.
  predicate Holds(a: array2<int>, m: Matrix)
    reads a
  {
    |m| == a.Length0 && (forall i | 0 <= i < |m| :: |m[i]| == a.Length1) &&
    forall i, j | 0 <= i < a.Length0 && 0 <= j < a.Length1 :: a[i, j] == m[i][j]
  }

  lemma HoldsCodes(a: array2<int>, m: Matrix)
    ensures Holds(a, m) <==> Codes(a) == m
  {
    if Holds(a, m) {
      assert forall i | 0 <= i < |m| :: Codes(a)[i] == m[i];
    }
  }

  class Generator {
    /// `m_BruteForce`: the search of the latest probe.
    var bruteForce: BruteForce
    /// `m_PuzzleSize` and `m_SubGridSize`.
    var shape: Shape

    constructor ()
      ensures bruteForce.solutions == [] && bruteForce.count == 0
    {
      bruteForce := new BruteForce();
      shape := Shape(0, 0, 0);
    }

    /// `Clone`: a new N x N matrix holding the codes a holds.
    method Clone(a: array2<int>, ghost m: Matrix) returns (b: array2<int>)
      requires 0 <= shape.size && a.Length0 == shape.size && a.Length1 == shape.size && Holds(a, m)
      ensures fresh(b) && b.Length0 == shape.size && b.Length1 == shape.size && Holds(b, m)
    {
      var n := shape.size;
      b := new int[n, n];
      for i := 0 to n
        invariant forall r, c | 0 <= r < i && 0 <= c < n :: b[r, c] == a[r, c]
      {
        for j := 0 to n
          invariant forall r, c | 0 <= r < i && 0 <= c < n :: b[r, c] == a[r, c]
          invariant forall c | 0 <= c < j :: b[i, c] == a[i, c]
        {
          b[i, j] := a[i, j];
        }
      }
    }

    /// The fill phase's probe, once it has entered more than
    /// `Threshold(N)` codes: a fresh search probes a in place, unless it
    /// times out; a probe counting no solution, or timing out, leaves a fresh
    /// search behind. Accepted when it counted a solution.
    method Probe(a: array2<int>) returns (timedOut: bool, accepted: bool)
      requires shape.Valid() && a.Length0 == shape.size && a.Length1 == shape.size
      modifies this, a
      ensures shape == old(shape)
      ensures var o := Solved(shape, old(Codes(a)), [], 0);
        (accepted <==> !timedOut && o.count > 0) && (accepted ==> Codes(a) == o.grid)
    {
      bruteForce := new BruteForce();
      timedOut := *;
      if timedOut {
        bruteForce := new BruteForce();
        accepted := false;
        return;
      }
      var unique := bruteForce.Solve(a, shape);
      accepted := bruteForce.count > 0;
      if !accepted {
        bruteForce := new BruteForce();
      }
    }

    /// The fill phase of `GeneratePuzzle`: fill cells one at a time, starting
    /// again from a blank matrix whenever the chosen cell has no candidate,
    /// until a probe accepts the matrix. found is false only when fuel rounds
    /// pass without acceptance.
    method Sow(fuel: nat) returns (a: array2<int>, found: bool, ghost seed: Matrix)
      requires shape.Valid() && shape.size >= 4
      modifies this
      ensures shape == old(shape)
      ensures fresh(a) && a.Length0 == shape.size && a.Length1 == shape.size
      ensures found ==> IsMatrix(shape, seed) && Proper(shape, seed)
      ensures found ==> |Empties(shape, seed)| == shape.size * shape.size - (Threshold(shape.size) + 1)
      ensures found ==> var o := Solved(shape, seed, [], 0); o.count > 0 && Codes(a) == o.grid
    {
      var sh := shape;
      var n := sh.size;
      ThresholdBelow(n);
      a := Blank(sh);
      seed := Codes(a);
      var entered := 0;
      found := false;
      var rounds := fuel;
      while !found && rounds > 0
        invariant shape == sh
        invariant fresh(a) && a.Length0 == n && a.Length1 == n
        invariant !found ==> 0 <= entered <= Threshold(n)
        invariant !found ==> Proper(sh, Codes(a)) && |Empties(sh, Codes(a))| == n * n - entered
        invariant found ==> IsMatrix(sh, seed) && Proper(sh, seed) && |Empties(sh, seed)| == n * n - (Threshold(n) + 1)
        invariant found ==> var o := Solved(sh, seed, [], 0); o.count > 0 && Codes(a) == o.grid
        decreases rounds
      {
        rounds := rounds - 1;
        var row, col, v, written := SowCell(sh, a);
        if !written {
          entered := 0;
          a := Blank(sh);
          continue;
        }
        entered := entered + 1;
        if entered > Threshold(n) {
          seed := Codes(a);
          var timedOut, accepted := Probe(a);
          if accepted {
            found := true;
          } else {
            entered := 0;
            a := Blank(sh);
          }
        }
      }
    }

    /// The reduction phase's probe: a fresh search probes a copy of a, which it leaves as it
    /// was; whether it counted exactly one solution.
    method ProbeCopy(a: array2<int>, ghost m: Matrix) returns (unique: bool)
      requires shape.Valid() && IsMatrix(shape, m) && a.Length0 == shape.size && a.Length1 == shape.size
      requires Holds(a, m)
      modifies this
      ensures shape == old(shape)
      ensures unique <==> Solved(shape, m, [], 0).count == 1
    {
      bruteForce := new BruteForce();
      var probe := Clone(a, m);
      HoldsCodes(probe, m);
      var one := bruteForce.Solve(probe, shape);
      unique := bruteForce.count == 1;
    }

    /// One reduction step: clear a random clue of a, then probe a copy of it.
    method Trial(a: array2<int>, ghost m: Matrix) returns (row: int, col: int, unique: bool)
      requires shape.Valid() && IsMatrix(shape, m) && a.Length0 == shape.size && a.Length1 == shape.size
      requires Holds(a, m) && Givens(shape, m) != {}
      modifies this, a
      ensures shape == old(shape)
      ensures (row, col) in Givens(shape, m) && Holds(a, Write(shape, m, row, col, 0))
      ensures unique <==> Solved(shape, Write(shape, m, row, col, 0), [], 0).count == 1
    {
      row, col := ClearClue(shape, a, m);
      unique := ProbeCopy(a, Write(shape, m, row, col, 0));
    }

    /// The inner loop of the reduction phase of `GeneratePuzzle`, from a restart to the first probe
    /// that does not find exactly one solution: clear a random clue, probe,
    /// and on a single solution keep a copy when the counter is below the
    /// lowest yet. stuck when no clue is left to clear, where the source
    /// would pick cells for ever.
    method Descend(current: array2<int>, previous: array2<int>, clues: int, lowest: int,
                   ghost start: Matrix, ghost cur: Matrix, ghost kept: Matrix, ghost restarts: int)
      returns (stuck: bool, kept': array2<int>, clues': int, lowest': int, ghost keptCodes: Matrix, ghost cur': Matrix)
      requires shape.Valid() && current != previous
      requires current.Length0 == shape.size && current.Length1 == shape.size
      requires previous.Length0 == shape.size && previous.Length1 == shape.size
      requires Holds(current, cur) && Holds(previous, kept)
      requires Reducing(shape, start, cur, kept, clues, restarts, lowest)
      modifies this, current
      ensures shape == old(shape)
      ensures kept'.Length0 == shape.size && kept'.Length1 == shape.size && Holds(kept', keptCodes)
      ensures kept' != current
      ensures Reducing(shape, start, cur', keptCodes, clues', restarts, lowest')
      ensures !stuck ==> Solved(shape, cur', [], 0).count != 1
    {
      var sh := shape;
      var n := sh.size;
      kept', clues', lowest', keptCodes, cur' := previous, clues, lowest, kept, cur;
      stuck := false;
      while true
        invariant shape == sh
        invariant kept'.Length0 == n && kept'.Length1 == n && kept' != current
        invariant Holds(current, cur') && Holds(kept', keptCodes)
        invariant Reducing(sh, start, cur', keptCodes, clues', restarts, lowest')
        decreases Givens(sh, cur')
      {
        if !exists r, c | 0 <= r < n && 0 <= c < n :: current[r, c] != 0 {
          assert Givens(sh, cur') == {};
          stuck := true;
          return;
        }
        ghost var r0, c0 :| 0 <= r0 < n && 0 <= c0 < n && current[r0, c0] != 0;
        assert (r0, c0) in Givens(sh, cur');
        var row, col, unique := Trial(current, cur');
        ReducingClear(sh, start, cur', keptCodes, clues', restarts, lowest', row, col);
        cur' := Write(sh, cur', row, col, 0);
        clues' := clues' - 1;
        if !unique {
          return;
        }
        if clues' < lowest' {
          ReducingRecord(sh, start, cur', keptCodes, clues', restarts, lowest');
          lowest' := clues';
          kept' := Clone(current, cur');
          keptCodes := cur';
        }
      }
    }

    /// The reduction phase of `GeneratePuzzle`: starting from a copy of the
    /// accepted matrix with the clue counter at N * N, descend; when the
    /// descent ends on a probe without exactly one solution, stop with the
    /// kept matrix (at first the accepted one) when the counter is at most
    /// `HintTarget(N)` or ten restarts are used up, else restart. The counter
    /// starts at N * N whatever the accepted matrix holds, so it exceeds the
    /// clues by the accepted matrix's empty cells. done is false when a
    /// descent runs out of clues.
    method Reduce(puzzle: array2<int>, ghost start: Matrix)
      returns (done: bool, result: array2<int>, ghost final: Matrix, ghost tries: int, ghost hints: int)
      requires shape.Valid() && shape.size >= 4 && IsMatrix(shape, start)
      requires puzzle.Length0 == shape.size && puzzle.Length1 == shape.size && Holds(puzzle, start)
      modifies this
      ensures shape == old(shape)
      ensures result.Length0 == shape.size && result.Length1 == shape.size
      ensures IsMatrix(shape, final) && Holds(result, final)
      ensures done ==> Cleared(shape, start, final)
      ensures done ==> final == start || (!Filled(shape, final) && Solved(shape, final, [], 0).count == 1)
      ensures done ==> 0 <= tries <= 10 && (hints <= HintTarget(shape.size) || tries == 10)
    {
      var sh := shape;
      var n := sh.size;
      bruteForce := new BruteForce();
      var target := HintTarget(n);
      var clues := n * n;
      var restarts := 0;
      var lowest := IntMax;
      var current := Clone(puzzle, start);
      var previous := Clone(puzzle, start);
      ghost var kept := start;
      ReducingStart(sh, start);
      while true
        invariant shape == sh && Holds(puzzle, start)
        invariant fresh(current) && current != previous
        invariant current.Length0 == n && current.Length1 == n && previous.Length0 == n && previous.Length1 == n
        invariant Holds(current, start) && Holds(previous, kept)
        invariant Reducing(sh, start, start, kept, clues, restarts, lowest)
        decreases 10 - restarts
      {
        var stuck;
        ghost var cur;
        stuck, previous, clues, lowest, kept, cur := Descend(current, previous, clues, lowest, start, start, kept, restarts);
        if stuck {
          done, result, final, tries, hints := false, previous, kept, restarts, clues;
          return;
        }
        if clues <= target || restarts == 10 {
          done, result, final, tries, hints := true, previous, kept, restarts, clues;
          return;
        }
        ReducingRestart(sh, start, cur, kept, clues, restarts, lowest);
        restarts := restarts + 1;
        current := Clone(puzzle, start);
        bruteForce := new BruteForce();
        clues := n * n;
      }
    }

    /// `GeneratePuzzle`: the puzzle made from the reduced matrix, its clues
    /// the start points. The reduced matrix keeps some codes of the accepted
    /// one and is the accepted one or has exactly one solution; either way a
    /// full matrix within the rules solves it. None when the fill phase is not
    /// accepted within fuel rounds or the reduction runs out of clues.
    method GeneratePuzzle(sh: Shape, table: Symbols.SymbolTable, fuel: nat)
      returns (r: Option<Puzzle>, ghost seed: Matrix, ghost accepted: Matrix, ghost final: Matrix)
      requires sh.Valid() && 4 <= sh.size <= |Symbols.Full|
      modifies this, table
      ensures shape == sh
      ensures r.Some? ==> IsMatrix(sh, seed) && IsMatrix(sh, accepted) && IsMatrix(sh, final)
      ensures r.Some? ==> Proper(sh, seed) && |Empties(sh, seed)| == sh.size * sh.size - (Threshold(sh.size) + 1)
      ensures r.Some? ==> var o := Solved(sh, seed, [], 0); o.count > 0 && accepted == o.grid
      ensures r.Some? ==> Cleared(sh, accepted, final) && (final == accepted || Unique(sh, final))
      ensures r.Some? ==> exists s :: Completes(sh, final, s)
      ensures r.Some? ==> fresh(r.value) && r.value.Valid() && r.value.shape == sh
      ensures r.Some? ==> forall i, j | InGrid(sh, i, j) ::
        r.value.grid[i][j].content == final[i][j] && (r.value.grid[i][j].startPoint <==> final[i][j] != 0)
    {
      shape := sh;
      bruteForce := new BruteForce();
      var a, found;
      a, found, seed := Sow(fuel);
      if !found {
        return None, seed, seed, seed;
      }
      accepted := Codes(a);
      HoldsCodes(a, accepted);
      ghost var s := AcceptedSolution(sh, seed);
      var done, result;
      ghost var tries, hints;
      done, result, final, tries, hints := Reduce(a, accepted);
      if done && final != accepted {
        FreshUnique(sh, final);
      }
      if !done {
        return None, seed, accepted, final;
      }
      ClearedChain(sh, s, accepted, final);
      ClearedCompletes(sh, s, final);
      var p := new Puzzle.FromMatrix(result, sh, table);
      r := Some(p);
    }
  }
}
