/// `HiddenCandidates`: k open cells of a line, x among them, that alone in
/// the line hold k codes; their working lists are cut down to those codes.
module HiddenCandidatesAlgorithm {
  import opened Lists
  import opened Numerals
  import opened Cells
  import opened Relations
  import opened Puzzles
  import opened Algorithms
  import Combinations

  /// A code is held by a list of cells and one more exactly when it is held
  /// by the list or by the last cell.
  lemma HoldsLast(cells: seq<Cell>)
    requires Readable(cells) && cells != []
    ensures forall v :: Holds(cells, v) <==> Holds(cells[..|cells| - 1], v) || v in Pending(cells[|cells| - 1])
  {
    var init := cells[..|cells| - 1];
    forall v ensures Holds(cells, v) <==> Holds(init, v) || v in Pending(cells[|cells| - 1]) {
      if Holds(cells, v) {
        var k :| 0 <= k < |cells| && v in Pending(cells[k]);
        if k < |init| {
          assert cells[k] == init[k];
        }
      }
      if Holds(init, v) {
        var k :| 0 <= k < |init| && v in Pending(init[k]);
        assert cells[k] == init[k];
      }
    }
  }

  /// The loop building `foundCellsUnion`: the candidates of the cells united
  /// in turn, that is every code one of them holds, once.
  function Combined(cells: seq<Cell>): (u: seq<int>)
    requires Readable(cells)
    ensures NoDups(u)
    ensures forall v :: v in u <==> Holds(cells, v)
  {
    if cells == [] then []
    else
      var init, y := cells[..|cells| - 1], cells[|cells| - 1];
      UnionMembership(Combined(init), Pending(y));
      HoldsLast(cells);
      Union(Combined(init), Pending(y))
  }

  /// `foundCellsUnion` once the candidates of every cell of the line outside
  /// the combination are removed.
  function Hidden(line: seq<Cell>, combo: seq<Cell>): seq<int>
    requires Readable(line) && Readable(combo)
  {
    Survivors(Combined(combo), Others(line, combo))
  }

  /// What is left is exactly the codes the combination holds and no other
  /// cell of the line does.
  lemma HiddenMembers(line: seq<Cell>, combo: seq<Cell>)
    requires Readable(line) && Readable(combo)
    ensures NoDups(Hidden(line, combo))
    ensures forall v :: v in Hidden(line, combo) <==> Holds(combo, v) && !Holds(Others(line, combo), v)
  {
    SurvivorsMembers(Combined(combo), Others(line, combo));
  }

  /// A combination is accepted when it hides as many codes as it has cells
  /// and is smaller than the line.
  predicate Hides(line: seq<Cell>, combo: seq<Cell>)
    requires Readable(line) && Readable(combo)
  {
    |Hidden(line, combo)| == |combo| && |combo| < |line|
  }

  predicate AllReadable(combos: seq<seq<Cell>>)
  {
    forall k | 0 <= k < |combos| :: Readable(combos[k])
  }

  /// The loop over the combinations: the first one accepted, with its hidden
  /// codes, or nothing.
  function First(line: seq<Cell>, combos: seq<seq<Cell>>): (f: (seq<Cell>, seq<int>))
    requires Readable(line) && AllReadable(combos)
    ensures f == ([], []) || f.0 in combos
  {
    if combos == [] then ([], [])
    else if Hides(line, combos[0]) then (combos[0], Hidden(line, combos[0]))
    else
      assert forall k | 0 <= k < |combos| - 1 :: combos[1..][k] == combos[k + 1];
      First(line, combos[1..])
  }

  /// The search settles on the first accepted combination and finds nothing
  /// when none is accepted.
  lemma {:induction false} FirstAccepted(line: seq<Cell>, combos: seq<seq<Cell>>)
    requires Readable(line) && AllReadable(combos)
    ensures var f := First(line, combos);
      ((forall k | 0 <= k < |combos| :: !Hides(line, combos[k])) ==> f == ([], [])) &&
      (f != ([], []) ==>
        exists j | 0 <= j < |combos| ::
          combos[j] == f.0 && Hides(line, combos[j]) && f.1 == Hidden(line, combos[j]) &&
          forall k | 0 <= k < j :: !Hides(line, combos[k]))
  {
    if combos != [] && !Hides(line, combos[0]) {
      var rest := combos[1..];
      assert forall k | 0 <= k < |rest| :: rest[k] == combos[k + 1];
      FirstAccepted(line, rest);
      var f := First(line, combos);
      if forall k | 0 <= k < |combos| :: !Hides(line, combos[k]) {
        assert forall k | 0 <= k < |rest| :: !Hides(line, rest[k]);
      }
      if f != ([], []) {
        var j :| 0 <= j < |rest| && rest[j] == f.0 && Hides(line, rest[j]) && f.1 == Hidden(line, rest[j]) &&
          forall k | 0 <= k < j :: !Hides(line, rest[k]);
        assert combos[j + 1] == rest[j];
        forall k | 0 <= k < j + 1 ensures !Hides(line, combos[k]) {
          if k > 0 {
            assert combos[k] == rest[k - 1];
          }
        }
      }
    }
  }

  /// `puzzleSize / 2`, or the line's length when that is smaller.
  function Limit(sh: Shape, line: seq<Cell>): int
  {
    if |line| <= sh.size / 2 then |line| else sh.size / 2
  }

  /// The combinations searched: the in-order picks of the line's cells that
  /// hold x, of 2 up to `Limit` cells, smallest first.
  function Choices(sh: Shape, line: seq<Cell>, x: Cell): (cs: seq<seq<Cell>>)
    ensures forall k | 0 <= k < |cs| ::
      2 <= |cs[k]| <= Limit(sh, line) && x in cs[k] && forall y | y in cs[k] :: y in line
  {
    ChoicesWithin(line, x, Limit(sh, line));
    Combinations.Selections(line, x, 2, Limit(sh, line) + 1)
  }

  lemma ChoicesWithin(line: seq<Cell>, x: Cell, half: int)
    ensures var cs := Combinations.Selections(line, x, 2, half + 1);
      forall k | 0 <= k < |cs| :: 2 <= |cs[k]| <= half && x in cs[k] && forall y | y in cs[k] :: y in line
  {
    var cs := Combinations.Selections(line, x, 2, half + 1);
    Combinations.SelectionsLengths(line, x, 2, half + 1);
    Combinations.SelectionsContent(line, x, 2, half + 1);
    forall k | 0 <= k < |cs| ensures 2 <= |cs[k]| <= half && x in cs[k] && forall y | y in cs[k] :: y in line {
      assert 2 <= Combinations.LengthAt(cs, k) < half + 1;
      assert Combinations.PickedInOrder(line, cs[k]);
      var c :| |c| == |cs[k]| && Combinations.IncreasingFrom(c, 0) && Combinations.Below(c, |line|) &&
        cs[k] == Combinations.Pick(line, c);
      forall y | y in cs[k] ensures y in line {
        var t :| 0 <= t < |cs[k]| && cs[k][t] == y;
        assert y == line[c[t]];
      }
    }
  }

  /// Cells drawn from a readable line are readable.
  lemma ReadableWithin(line: seq<Cell>, cells: seq<Cell>)
    requires Readable(line) && forall y | y in cells :: y in line
    ensures Readable(cells)
  {
    forall k | 0 <= k < |cells| ensures |cells[k].possibleValues| >= 1 {
      assert cells[k] in cells;
    }
  }

  /// The cells and codes the line search settles on.
  function Found(sh: Shape, line: seq<Cell>, x: Cell): (f: (seq<Cell>, seq<int>))
    requires Readable(line)
    ensures Readable(f.0) && forall y | y in f.0 :: y in line
  {
    var cs := Choices(sh, line, x);
    ChoicesReadable(sh, line, x);
    var f := First(line, cs);
    assert f.0 == [] || f.0 in cs;
    f
  }

  /// The line's search edits the grid: at least two cells were found and x
  /// has more candidates than that.
  predicate Applies(sh: Shape, line: seq<Cell>, x: Cell)
    requires Readable(line) && |x.possibleValues| >= 1
  {
    var f := Found(sh, line, x);
    |f.0| > 1 && |Pending(x)| > |f.0|
  }

  /// The combinations searched are readable.
  lemma ChoicesReadable(sh: Shape, line: seq<Cell>, x: Cell)
    requires Readable(line)
    ensures AllReadable(Choices(sh, line, x))
  {
    var cs := Choices(sh, line, x);
    forall k | 0 <= k < |cs| ensures Readable(cs[k]) {
      ReadableWithin(line, cs[k]);
    }
  }

  /// Where the search applies, it found a hidden set: x and 2 to `Limit`
  /// cells of the line, fewer than the line has and fewer than x's
  /// candidates, as many as the codes, which are exactly the codes these
  /// cells hold and no other cell of the line does.
  lemma HiddenSet(sh: Shape, line: seq<Cell>, x: Cell)
    requires Readable(line) && |x.possibleValues| >= 1
    ensures var f := Found(sh, line, x);
      Applies(sh, line, x) ==>
        x in f.0 && 2 <= |f.0| <= Limit(sh, line) && |f.0| < |line| && |f.0| < |Pending(x)| &&
        |f.1| == |f.0| && NoDups(f.1) &&
        forall v :: v in f.1 <==> Holds(f.0, v) && !Holds(Others(line, f.0), v)
  {
    var f := Found(sh, line, x);
    var cs := Choices(sh, line, x);
    ChoicesReadable(sh, line, x);
    FirstAccepted(line, cs);
    if Applies(sh, line, x) {
      var j :| 0 <= j < |cs| && cs[j] == f.0 && Hides(line, cs[j]) && f.1 == Hidden(line, cs[j]) &&
        forall k | 0 <= k < j :: !Hides(line, cs[k]);
      HiddenMembers(line, f.0);
    }
  }

  /// The set found is the first combination searched that is accepted, and
  /// nothing is found when none is.
  lemma FoundFirst(sh: Shape, line: seq<Cell>, x: Cell)
    requires Readable(line)
    ensures var f := Found(sh, line, x); var cs := Choices(sh, line, x);
      AllReadable(cs) &&
      ((forall k | 0 <= k < |cs| :: !Hides(line, cs[k])) ==> f == ([], [])) &&
      (f != ([], []) ==>
        exists j | 0 <= j < |cs| :: cs[j] == f.0 && Hides(line, cs[j]) && forall k | 0 <= k < j :: !Hides(line, cs[k]))
  {
    ChoicesReadable(sh, line, x);
    FirstAccepted(line, Choices(sh, line, x));
  }

  /// No code of a line's cells is 0, so neither is a hidden code.
  lemma HiddenNotZero(sh: Shape, line: seq<Cell>, x: Cell)
    requires Readable(line) && |x.possibleValues| >= 1
    requires forall k | 0 <= k < |line| :: ListsOk(line[k]) && !line[k].startPoint
    ensures var f := Found(sh, line, x); Applies(sh, line, x) ==> 0 !in f.1
  {
    var f := Found(sh, line, x);
    HiddenSet(sh, line, x);
    if Applies(sh, line, x) {
      forall v | v in f.1 ensures v != 0 {
        var k :| 0 <= k < |f.0| && v in Pending(f.0[k]);
        assert f.0[k] in f.0;
        var i :| 0 <= i < |line| && line[i] == f.0[k];
        PendingOk(line[i]);
      }
    }
  }

  /// The restriction loop for one found cell: its working list keeps code 0
  /// and the hidden codes, in order.
  function Restrict(list: seq<int>, vals: seq<int>): seq<int>
  {
    if list == [] then []
    else
      var init, u := list[..|list| - 1], list[|list| - 1];
      Restrict(init, vals) + (if u in vals || u == 0 then [u] else [])
  }

  /// A restricted list keeps exactly the listed codes and 0, is no longer,
  /// repeats nothing the list did not, and still starts with 0 if it did.
  lemma RestrictMembers(list: seq<int>, vals: seq<int>)
    ensures forall u :: u in Restrict(list, vals) <==> u in list && (u in vals || u == 0)
    ensures |Restrict(list, vals)| <= |list|
    ensures NoDups(list) ==> NoDups(Restrict(list, vals))
    ensures list != [] && list[0] == 0 ==> Restrict(list, vals) != [] && Restrict(list, vals)[0] == 0
  {
    RestrictKeeps(list, vals);
    RestrictHead(list, vals);
    if NoDups(list) {
      RestrictNoDups(list, vals);
    }
  }

  /// The codes a restriction keeps, and its length.
  lemma {:induction false} RestrictKeeps(list: seq<int>, vals: seq<int>)
    ensures forall u :: u in Restrict(list, vals) <==> u in list && (u in vals || u == 0)
    ensures |Restrict(list, vals)| <= |list|
  {
    if list != [] {
      var init, u := list[..|list| - 1], list[|list| - 1];
      assert list == init + [u];
      RestrictKeeps(init, vals);
    }
  }

  /// A restriction keeps the leading 0.
  lemma {:induction false} RestrictHead(list: seq<int>, vals: seq<int>)
    ensures list != [] && list[0] == 0 ==> Restrict(list, vals) != [] && Restrict(list, vals)[0] == 0
  {
    if list != [] {
      var init, u := list[..|list| - 1], list[|list| - 1];
      RestrictHead(init, vals);
      if init == [] {
        assert Restrict(init, vals) == [];
      } else {
        assert list[0] == init[0];
      }
    }
  }

  /// A restriction of a list without repeats has none.
  lemma {:induction false} RestrictNoDups(list: seq<int>, vals: seq<int>)
    requires NoDups(list)
    ensures NoDups(Restrict(list, vals))
  {
    if list != [] {
      var init, u := list[..|list| - 1], list[|list| - 1];
      assert list == init + [u];
      assert NoDups(init) by {
        forall i, j | 0 <= i < j < |init| ensures init[i] != init[j] {
          assert init[i] == list[i] && init[j] == list[j];
        }
      }
      RestrictNoDups(init, vals);
      RestrictKeeps(init, vals);
      assert u !in init;
      AppendNoDups(Restrict(init, vals), if u in vals || u == 0 then [u] else []);
    }
  }

  lemma AppendNoDups(a: seq<int>, b: seq<int>)
    requires NoDups(a) && NoDups(b) && forall u | u in b :: u !in a
    ensures NoDups(a + b)
  {
    forall i, j | 0 <= i < j < |a + b| ensures (a + b)[i] != (a + b)[j] {
      if i < |a| && j >= |a| {
        assert (a + b)[j] == b[j - |a|];
        assert b[j - |a|] in b;
      }
    }
  }

  /// A list holding only codes to keep is left as it is.
  lemma {:induction false} RestrictSame(list: seq<int>, vals: seq<int>)
    requires forall u | u in list :: u in vals || u == 0
    ensures Restrict(list, vals) == list
  {
    if list != [] {
      var init, u := list[..|list| - 1], list[|list| - 1];
      assert list == init + [u];
      RestrictSame(init, vals);
    }
  }

  lemma RestrictTwice(list: seq<int>, vals: seq<int>)
    ensures Restrict(Restrict(list, vals), vals) == Restrict(list, vals)
  {
    RestrictMembers(list, vals);
    RestrictSame(Restrict(list, vals), vals);
  }

  /// `List.Remove` past a prefix that does not hold the code.
  lemma {:induction false} RemoveFirstAfter(a: seq<int>, v: int, b: seq<int>)
    requires v !in a
    ensures RemoveFirst(a + [v] + b, v) == a + b
  {
    if a != [] {
      RemoveFirstAfter(a[1..], v, b);
      assert (a + [v] + b)[1..] == a[1..] + [v] + b;
      assert a + b == [a[0]] + (a[1..] + b);
    }
  }

  /// The loop over one found cell's working list: every code that is
  /// neither hidden nor 0 is removed from a copy.
  method Restricted(list: seq<int>, vals: seq<int>) returns (r: seq<int>)
    ensures r == Restrict(list, vals)
  {
    r := list;
    for k := 0 to |list|
      invariant r == Restrict(list[..k], vals) + list[k..]
    {
      if list[k] !in vals && list[k] != 0 {
        RestrictRemove(list, vals, k);
        r := RemoveFirst(r, list[k]);
      } else {
        RestrictKeep(list, vals, k);
      }
    }
    assert list[..|list|] == list;
  }

  /// Round k of `Restricted` on a code neither listed nor 0: removing it
  /// moves the restriction one code further.
  lemma RestrictRemove(list: seq<int>, vals: seq<int>, k: int)
    requires 0 <= k < |list| && list[k] !in vals && list[k] != 0
    ensures RemoveFirst(Restrict(list[..k], vals) + list[k..], list[k]) == Restrict(list[..k + 1], vals) + list[k + 1..]
  {
    var u, kept, rest := list[k], Restrict(list[..k], vals), list[k + 1..];
    RestrictStep(list, vals, k);
    assert kept + list[k..] == kept + [u] + rest;
    assert u !in kept by {
      RestrictMembers(list[..k], vals);
    }
    RemoveFirstAfter(kept, u, rest);
  }

  /// Round k of `Restricted` on a code listed or 0: keeping it moves the
  /// restriction one code further.
  lemma RestrictKeep(list: seq<int>, vals: seq<int>, k: int)
    requires 0 <= k < |list| && (list[k] in vals || list[k] == 0)
    ensures Restrict(list[..k], vals) + list[k..] == Restrict(list[..k + 1], vals) + list[k + 1..]
  {
    RestrictStep(list, vals, k);
    assert list[k..] == [list[k]] + list[k + 1..];
  }

  /// One more code of the list: it is kept when it is listed or 0.
  lemma RestrictStep(list: seq<int>, vals: seq<int>, k: int)
    requires 0 <= k < |list|
    ensures Restrict(list[..k + 1], vals) ==
      Restrict(list[..k], vals) + (if list[k] in vals || list[k] == 0 then [list[k]] else [])
  {
    assert list[..k + 1][..k] == list[..k];
  }

  /// The working list of each cell in turn restricted to 0 and the codes.
  function RestrictCells(sh: Shape, g: Grid, cells: seq<Cell>, vals: seq<int>): (h: Grid)
    requires WellFormed(sh, g) && Placed(sh, cells)
    ensures WellFormed(sh, h)
  {
    if cells == [] then g
    else
      var prev := RestrictCells(sh, g, cells[..|cells| - 1], vals);
      var t := cells[|cells| - 1];
      Put(sh, prev, t.row, t.column, prev[t.row][t.column].(updated := Restrict(prev[t.row][t.column].updated, vals)))
  }

  /// What restricting does: every listed cell keeps only 0 and the codes in
  /// its working list, and nothing else changes.
  lemma {:induction false} RestrictEffect(sh: Shape, g: Grid, cells: seq<Cell>, vals: seq<int>)
    requires WellFormed(sh, g) && Placed(sh, cells)
    ensures var h := RestrictCells(sh, g, cells, vals);
      forall a, b | InGrid(sh, a, b) ::
        h[a][b] == if Targeted(cells, a, b) then g[a][b].(updated := Restrict(g[a][b].updated, vals)) else g[a][b]
    decreases |cells|
  {
    if cells != [] {
      var init, t := cells[..|cells| - 1], cells[|cells| - 1];
      RestrictEffect(sh, g, init, vals);
      var prev := RestrictCells(sh, g, init, vals);
      var h := RestrictCells(sh, g, cells, vals);
      var y := g[t.row][t.column];
      RestrictTwice(y.updated, vals);
      assert h[t.row][t.column] == y.(updated := Restrict(y.updated, vals));
      forall a, b | InGrid(sh, a, b)
        ensures h[a][b] == if Targeted(cells, a, b) then g[a][b].(updated := Restrict(g[a][b].updated, vals)) else g[a][b]
      {
        TargetedStep(cells, a, b);
      }
    }
  }

  /// Restricting keeps the grid in shape and only narrows working lists.
  lemma RestrictNarrows(sh: Shape, g: Grid, cells: seq<Cell>, vals: seq<int>)
    requires GridOk(sh, g) && Placed(sh, cells)
    ensures var h := RestrictCells(sh, g, cells, vals); GridOk(sh, h) && Narrowing(sh, g, h) && KeepsZero(sh, g, h)
  {
    RestrictEffect(sh, g, cells, vals);
    var h := RestrictCells(sh, g, cells, vals);
    forall a, b | InGrid(sh, a, b)
      ensures ListsOk(h[a][b]) && h[a][b] == g[a][b].(updated := h[a][b].updated)
      ensures |h[a][b].updated| <= |g[a][b].updated|
      ensures 0 in g[a][b].updated ==> 0 in h[a][b].updated
    {
      assert ListsOk(g[a][b]);
      RestrictMembers(g[a][b].updated, vals);
    }
  }

  /// Cells drawn from a line of grid cells are grid cells.
  lemma PlacedWithin(sh: Shape, line: seq<Cell>, cells: seq<Cell>)
    requires Placed(sh, line) && forall y | y in cells :: y in line
    ensures Placed(sh, cells)
  {
    forall k | 0 <= k < |cells| ensures InGrid(sh, cells[k].row, cells[k].column) {
      assert cells[k] in cells;
    }
  }

  /// `SearchLine` on one line, starting from the grid h and the report so far:
  /// the grid, whether the restriction step ran, and the report.
  function LineSearched(sh: Shape, h: Grid, line: seq<Cell>, x: Cell, rep: Report): (Grid, bool, Report)
    requires WellFormed(sh, h) && Readable(line) && Placed(sh, line) && |x.possibleValues| >= 1
  {
    var f := Found(sh, line, x);
    if |f.0| > 1 && |Pending(x)| > |f.0| then
      PlacedWithin(sh, line, f.0);
      (RestrictCells(sh, h, f.0, f.1), true, Report(x.row, x.column, Eliminated(f.1, "nearby cells"), "Hidden " + Format(|f.0|) + "'s"))
    else (h, false, rep)
  }

  /// A report of this algorithm: at the cell, codes eliminated from nearby
  /// cells, and a name counting as many cells as codes.
  predicate Named(rep: Report, x: Cell)
  {
    rep.row == x.row && rep.column == x.column && rep.message.Eliminated? &&
    rep.message.place == "nearby cells" && rep.name == "Hidden " + Format(|rep.message.values|) + "'s"
  }

  /// One line keeps the grid in shape, only narrows working lists, and
  /// either applies and writes a report of this algorithm, or changes
  /// nothing at all.
  lemma LineNarrows(sh: Shape, h: Grid, line: seq<Cell>, x: Cell, rep: Report)
    requires GridOk(sh, h) && Searchable(sh, line) && Readable(line) && ListsOk(x) && !x.startPoint
    ensures var s := LineSearched(sh, h, line, x, rep);
      GridOk(sh, s.0) && Narrowing(sh, h, s.0) && KeepsZero(sh, h, s.0) && (s.1 <==> Applies(sh, line, x)) &&
      (!s.1 ==> s.0 == h && s.2 == rep) && (s.1 ==> Named(s.2, x))
  {
    var f := Found(sh, line, x);
    if Applies(sh, line, x) {
      HiddenSet(sh, line, x);
      assert |f.1| == |f.0|;
      PlacedWithin(sh, line, f.0);
      RestrictNarrows(sh, h, f.0, f.1);
    } else {
      forall a, b | InGrid(sh, a, b) ensures h[a][b] == h[a][b].(updated := h[a][b].updated) { }
    }
  }

  /// What the restricted line looks like: the found cells keep only 0 and
  /// the hidden codes in their working lists, and every other cell is left
  /// as it was.
  lemma LineRestricts(sh: Shape, h: Grid, line: seq<Cell>, x: Cell, rep: Report)
    requires WellFormed(sh, h) && Readable(line) && Placed(sh, line) && |x.possibleValues| >= 1
    ensures var s := LineSearched(sh, h, line, x, rep); var f := Found(sh, line, x);
      Applies(sh, line, x) ==>
        forall a, b | InGrid(sh, a, b) ::
          s.0[a][b] == if Targeted(f.0, a, b) then h[a][b].(updated := Restrict(h[a][b].updated, f.1)) else h[a][b]
  {
    var f := Found(sh, line, x);
    if Applies(sh, line, x) {
      PlacedWithin(sh, line, f.0);
      RestrictEffect(sh, h, f.0, f.1);
    }
  }

  /// The row, the column and the box searched in turn, from the grid g: the
  /// grid, whether any line applied, and the last report.
  function Swept(sh: Shape, g: Grid, x: Cell, row: seq<Cell>, col: seq<Cell>, box: seq<Cell>): (Grid, bool, Report)
    requires WellFormed(sh, g) && |x.possibleValues| >= 1
    requires Readable(row) && Placed(sh, row) && Readable(col) && Placed(sh, col) && Readable(box) && Placed(sh, box)
  {
    var a := LineSearched(sh, g, row, x, Initial(HiddenCandidates));
    var b := LineSearched(sh, a.0, col, x, a.2);
    var d := LineSearched(sh, b.0, box, x, b.2);
    (d.0, a.1 || b.1 || d.1, d.2)
  }

  /// The three lines together only narrow working lists, report progress
  /// exactly when one of them applied, and then leave a report of this
  /// algorithm; otherwise the grid and the report are as they were.
  lemma SweptNarrows(sh: Shape, g: Grid, x: Cell, row: seq<Cell>, col: seq<Cell>, box: seq<Cell>)
    requires GridOk(sh, g) && ListsOk(x) && !x.startPoint
    requires Searchable(sh, row) && Readable(row) && Searchable(sh, col) && Readable(col)
    requires Searchable(sh, box) && Readable(box)
    ensures var t := Swept(sh, g, x, row, col, box);
      GridOk(sh, t.0) && Narrowing(sh, g, t.0) && KeepsZero(sh, g, t.0) &&
      (t.1 <==> Applies(sh, row, x) || Applies(sh, col, x) || Applies(sh, box, x)) &&
      (!t.1 ==> t.0 == g && t.2 == Initial(HiddenCandidates)) && (t.1 ==> Named(t.2, x))
  {
    var a := LineSearched(sh, g, row, x, Initial(HiddenCandidates));
    LineNarrows(sh, g, row, x, Initial(HiddenCandidates));
    var b := LineSearched(sh, a.0, col, x, a.2);
    LineNarrows(sh, a.0, col, x, a.2);
    var d := LineSearched(sh, b.0, box, x, b.2);
    LineNarrows(sh, b.0, box, x, b.2);
    NarrowingChain(sh, g, a.0, b.0);
    NarrowingChain(sh, g, b.0, d.0);
    KeepsZeroChain(sh, g, a.0, b.0);
    KeepsZeroChain(sh, g, b.0, d.0);
  }

  /// What `Search` on the open cell at (r, c) does: it searches the row, the
  /// column and the box in turn, only narrows working lists, and returns
  /// `null` exactly when one of them applied, even when no list got shorter;
  /// a list that got shorter always means `null`.
  function Searched(sh: Shape, g: Grid, r: int, c: int): (s: Step)
    requires GridOk(sh, g) && InGrid(sh, r, c) && Open(g[r][c])
    ensures s.verdict != Entered
    ensures GridOk(sh, s.grid) && Narrowing(sh, g, s.grid) && KeepsZero(sh, g, s.grid)
    ensures Readable(OpenRow(sh, g, r)) && Readable(OpenColumn(sh, g, c)) && Readable(OpenBox(sh, g, r, c)) &&
      (s.verdict == Narrowed <==>
        Applies(sh, OpenRow(sh, g, r), g[r][c]) || Applies(sh, OpenColumn(sh, g, c), g[r][c]) ||
        Applies(sh, OpenBox(sh, g, r, c), g[r][c]))
    ensures Shrunk(sh, g, s.grid) ==> s.verdict == Narrowed
    ensures s.verdict == Unchanged ==> s.grid == g && s.report == Initial(HiddenCandidates)
    ensures s.verdict == Narrowed ==> s.report.row == r && s.report.column == c && Named(s.report, g[r][c])
  {
    var x := g[r][c];
    LinesSearchable(sh, g, r, c);
    assert ListsOk(x);
    var row, col, box := OpenRow(sh, g, r), OpenColumn(sh, g, c), OpenBox(sh, g, r, c);
    SweptNarrows(sh, g, x, row, col, box);
    var t := Swept(sh, g, x, row, col, box);
    assert !t.1 ==> !Shrunk(sh, g, t.0);
    Step(t.0, if t.1 then Narrowed else Unchanged, t.2)
  }

  /// The loop building `foundCellsUnion`.
  method CombinedValues(cells: seq<Cell>) returns (u: seq<int>)
    requires Readable(cells)
    ensures u == Combined(cells)
  {
    u := [];
    for k := 0 to |cells|
      invariant u == Combined(cells[..k])
    {
      assert cells[..k + 1][..k] == cells[..k];
      u := Union(u, Pending(cells[k]));
    }
    assert cells[..|cells|] == cells;
  }

  /// The loop restricting the found cells' working lists.
  method RestrictFound(p: Puzzle, cells: seq<Cell>, vals: seq<int>)
    requires WellFormed(p.shape, p.grid) && Placed(p.shape, cells)
    modifies p
    ensures p.shape == old(p.shape) && p.symbols == old(p.symbols)
    ensures p.grid == RestrictCells(p.shape, old(p.grid), cells, vals)
  {
    for k := 0 to |cells|
      invariant p.shape == old(p.shape) && p.symbols == old(p.symbols)
      invariant Placed(p.shape, cells[..k])
      invariant p.grid == RestrictCells(p.shape, old(p.grid), cells[..k], vals)
    {
      assert cells[..k + 1][..k] == cells[..k];
      var y := cells[k];
      var list := Restricted(p.grid[y.row][y.column].updated, vals);
      p.grid := Put(p.shape, p.grid, y.row, y.column, p.grid[y.row][y.column].(updated := list));
    }
    assert cells[..|cells|] == cells;
  }

  /// The combinations of the line holding x and the loop that settles on
  /// the first accepted one.
  method FindHidden(sh: Shape, line: seq<Cell>, x: Cell) returns (found: seq<Cell>, values: seq<int>)
    requires Readable(line)
    ensures (found, values) == Found(sh, line, x)
  {
    var half := if |line| <= sh.size / 2 then |line| else sh.size / 2;
    var generated := Combinations.GenerateCombinations(line, x, 2, half);
    assert generated.Ok?;
    var combos := generated.value;
    assert combos == Choices(sh, line, x);
    ChoicesReadable(sh, line, x);
    found, values := Settle(line, combos);
  }

  /// The loop over the combinations, stopping at the first accepted one.
  method Settle(line: seq<Cell>, combos: seq<seq<Cell>>) returns (found: seq<Cell>, values: seq<int>)
    requires Readable(line) && AllReadable(combos)
    ensures (found, values) == First(line, combos)
  {
    found, values := [], [];
    var j := 0;
    while j < |combos|
      invariant 0 <= j <= |combos|
      invariant AllReadable(combos[j..])
      invariant First(line, combos) == First(line, combos[j..])
      invariant found == [] && values == []
    {
      var current := combos[j];
      assert combos[j..][0] == current && combos[j..][1..] == combos[j + 1..];
      var union := CombinedValues(current);
      union := SurvivingValues(union, line, current);
      if |union| == |current| && |current| < |line| {
        found, values := current, union;
        return;
      }
      j := j + 1;
    }
  }

  /// `SearchLine`: the combinations of the line holding x, the loop that
  /// settles on the first accepted one, then the restriction step.
  method SearchLine(p: Puzzle, line: seq<Cell>, x: Cell, rep: Report) returns (applied: bool, rep': Report)
    requires WellFormed(p.shape, p.grid) && Readable(line) && Placed(p.shape, line) && |x.possibleValues| >= 1
    modifies p
    ensures p.shape == old(p.shape) && p.symbols == old(p.symbols)
    ensures (p.grid, applied, rep') == LineSearched(p.shape, old(p.grid), line, x, rep)
  {
    var found, values := FindHidden(p.shape, line, x);
    if |found| > 1 && |Pending(x)| > |found| {
      rep' := Report(x.row, x.column, Eliminated(values, "nearby cells"), "Hidden " + Format(|found|) + "'s");
      PlacedWithin(p.shape, line, found);
      RestrictFound(p, found, values);
      applied := true;
    } else {
      applied, rep' := false, rep;
    }
  }

  /// `Search`: the grid, the verdict and the report are those of `Searched`.
  method Search(p: Puzzle, r: int, c: int) returns (verdict: Verdict, report: Report)
    requires p.Valid() && InGrid(p.shape, r, c) && Open(p.grid[r][c])
    modifies p
    ensures p.shape == old(p.shape) && p.symbols == old(p.symbols) && p.Valid()
    ensures Step(p.grid, verdict, report) == Searched(p.shape, old(p.grid), r, c)
  {
    report := Initial(HiddenCandidates);
    LinesSearchable(p.shape, p.grid, r, c);
    var x := p.grid[r][c];
    var row := OpenCells(RowOf(p.shape, p.grid, r));
    var column := OpenCells(ColumnOf(p.shape, p.grid, c));
    var box := OpenCells(BoxOf(p.shape, p.grid, r, c));
    var inRow, inColumn, inBox;
    inRow, report := SearchLine(p, row, x, report);
    inColumn, report := SearchLine(p, column, x, report);
    inBox, report := SearchLine(p, box, x, report);
    assert (p.grid, inRow || inColumn || inBox, report) == Swept(p.shape, old(p.grid), x, row, column, box);
    verdict := if inRow || inColumn || inBox then Narrowed else Unchanged;
    ghost var s := Searched(p.shape, old(p.grid), r, c);
    assert Step(p.grid, verdict, report) == s;
    assert GridOk(p.shape, s.grid);
  }
}
