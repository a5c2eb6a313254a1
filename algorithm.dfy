/// What the deduction algorithms share (the `Algorithm` base class): the
/// three-way verdict of `Search`, the report a search leaves behind and its
/// text, the line views they search, and the list edits they make on working
/// candidate lists.
module Algorithms {
  import opened Wrappers
  import opened Lists
  import opened Numerals
  import opened Cells
  import opened Relations
  import opened Puzzles

  /// What `Search` returns: `true` (a code was entered), `null` (working lists
  /// were narrowed) or `false` (nothing happened).
  datatype Verdict = Entered | Narrowed | Unchanged

  /// The algorithm classes, in the order the solver tries them.
  datatype Kind = NakedSingle | HiddenSingle | NakedCandidates | HiddenCandidates | Pointers | BoxLineReduction

  const Order: seq<Kind> := [NakedSingle, HiddenSingle, NakedCandidates, HiddenCandidates, Pointers, BoxLineReduction]

  /// The name each class passes to the base constructor.
  function BaseName(k: Kind): string
  {
    match k
    case NakedSingle => "Naked Single"
    case HiddenSingle => "Hidden Single"
    case NakedCandidates => ""
    case HiddenCandidates => ""
    case Pointers => "Pointing Pairs/Triples"
    case BoxLineReduction => "Box Line Reduction"
  }

  /// `m_AlgorithmMessage`: unset (null) until a search writes it.
  datatype Message =
    | NoMessage
    | ChangedTo(value: int)
    | FoundToBe(value: int)
    | Eliminated(values: seq<int>, place: string)

  /// The fields a search writes on its algorithm object: `m_Row`, `m_Column`,
  /// `m_AlgorithmMessage` and `m_AlgorithmName`.
  datatype Report = Report(row: int, column: int, message: Message, name: string)

  /// The fields of a newly created algorithm object.
  function Initial(k: Kind): (rep: Report)
    ensures rep.row == 0 && rep.column == 0 && rep.message == NoMessage
    ensures rep.name == BaseName(k)
  {
    Report(0, 0, NoMessage, BaseName(k))
  }

  /// What a search leaves behind: the grid, what `Search` returned and the
  /// fields of the algorithm object.
  datatype Step = Step(grid: Grid, verdict: Verdict, report: Report)

  /// The grids differ at most in their working lists.
  predicate OnlyWorkingLists(sh: Shape, g: Grid, h: Grid)
  {
    WellFormed(sh, g) && WellFormed(sh, h) &&
    forall a, b | 0 <= a < sh.size && 0 <= b < sh.size :: h[a][b] == g[a][b].(updated := h[a][b].updated)
  }

  /// Some working list of h is shorter than in g.
  predicate Shrunk(sh: Shape, g: Grid, h: Grid)
    requires WellFormed(sh, g) && WellFormed(sh, h)
  {
    exists a, b | 0 <= a < sh.size && 0 <= b < sh.size :: |h[a][b].updated| < |g[a][b].updated|
  }

  /// The codes a message shows as glyphs.
  function MessageCodes(m: Message): seq<int>
  {
    match m
    case NoMessage => []
    case ChangedTo(v) => [v]
    case FoundToBe(v) => [v]
    case Eliminated(vs, _) => vs
  }

  /// Every code has a glyph in the table.
  predicate Printable(table: string, codes: seq<int>)
  {
    forall k | 0 <= k < |codes| :: 0 <= codes[k] < |table|
  }

  /// `String.Join(", ", symbols)` over the glyphs of the codes.
  function JoinGlyphs(table: string, codes: seq<int>): (s: string)
    requires Printable(table, codes)
    ensures |s| == if codes == [] then 0 else 3 * |codes| - 2
    ensures forall k | 0 <= k < |codes| :: s[3 * k] == table[codes[k]]
  {
    if codes == [] then ""
    else if |codes| == 1 then [table[codes[0]]]
    else JoinGlyphs(table, codes[..|codes| - 1]) + ", " + [table[codes[|codes| - 1]]]
  }

  function MessageText(table: string, m: Message): string
    requires Printable(table, MessageCodes(m))
  {
    match m
    case NoMessage => ""
    case ChangedTo(v) => assert MessageCodes(m)[0] == v; "changed to value " + [table[v]]
    case FoundToBe(v) => assert MessageCodes(m)[0] == v; "value found to be " + [table[v]]
    case Eliminated(vs, place) => "Used to eliminate possible values " + JoinGlyphs(table, vs) + " from " + place
  }

  const Lead := "Cell at position "

  /// `ToString`: the position 1-based, the message and the name.
  function ReportText(table: string, rep: Report): string
    requires Printable(table, MessageCodes(rep.message))
  {
    Lead + Format(rep.row + 1) + ", " + Format(rep.column + 1) + Tail(table, rep)
  }

  function Tail(table: string, rep: Report): string
    requires Printable(table, MessageCodes(rep.message))
  {
    " " + MessageText(table, rep.message) + " using " + rep.name + " algorithm"
  }

  lemma Pieces(a: string, b: string, c: string, d: string, e: string)
    ensures var s := a + b + c + d + e;
      s[..|a|] == a && s[|a|..|a| + |b|] == b && s[|a| + |b|..|a| + |b| + |c|] == c &&
      s[|a| + |b| + |c|..|a| + |b| + |c| + |d|] == d && s[|a| + |b| + |c| + |d|..] == e
  {
  }

  /// The two numbers of the text read back as the 1-based row and column, and
  /// the rest of the text is the message part.
  lemma ReportPosition(table: string, rep: Report)
    requires Printable(table, MessageCodes(rep.message))
    requires 0 <= rep.row < 0x7fff_ffff && 0 <= rep.column < 0x7fff_ffff
    ensures var s := ReportText(table, rep);
      var a, b := |Format(rep.row + 1)|, |Format(rep.column + 1)|;
      var at := |Lead| + a + 2;
      |s| == at + b + |Tail(table, rep)| && s[..|Lead|] == Lead && s[|Lead| + a..at] == ", " &&
      TryParse(s[|Lead|..|Lead| + a]) == Some((rep.row + 1) as int32) &&
      TryParse(s[at..at + b]) == Some((rep.column + 1) as int32) &&
      s[at + b..] == Tail(table, rep)
  {
    var x, y, t := Format(rep.row + 1), Format(rep.column + 1), Tail(table, rep);
    var s := ReportText(table, rep);
    assert s == Lead + x + ", " + y + t;
    Positions(Lead, x, y, t);
    ParsesBack(rep.row + 1);
    ParsesBack(rep.column + 1);
  }

  lemma Positions(lead: string, x: string, y: string, t: string)
    ensures var s := lead + x + ", " + y + t;
      var at := |lead| + |x| + 2;
      |s| == at + |y| + |t| &&
      s[..|lead|] == lead && s[|lead|..|lead| + |x|] == x && s[|lead| + |x|..at] == ", " &&
      s[at..at + |y|] == y && s[at + |y|..] == t
  {
    Pieces(lead, x, ", ", y, t);
  }

  /// The message part starts with a space and ends by naming the algorithm.
  lemma TailEnding(table: string, rep: Report)
    requires Printable(table, MessageCodes(rep.message))
    ensures var t := Tail(table, rep);
      var ending := " using " + rep.name + " algorithm";
      t[0] == ' ' && |t| >= |ending| && t[|t| - |ending|..] == ending
  {
    var m := MessageText(table, rep.message);
    var ending := " using " + rep.name + " algorithm";
    Ends(" " + m, " using ", rep.name, " algorithm");
  }

  lemma Ends(a: string, b: string, c: string, d: string)
    ensures var s := a + b + c + d; s[|a|..] == b + c + d && (a != [] ==> s[0] == a[0])
  {
  }

  /// The candidate list without the placeholder code 0 (`possibleValuesWithout0`).
  function Pending(y: Cell): seq<int>
    requires |y.possibleValues| >= 1
  {
    WithoutZero(y)
  }

  /// The candidates of a cell that is not a given, without code 0.
  lemma PendingOk(x: Cell)
    requires ListsOk(x) && !x.startPoint
    ensures NoDups(Pending(x)) && 0 !in Pending(x)
    ensures forall v :: v in Pending(x) <==> v in x.possibleValues && v != 0
  {
    WithoutZeroMembers(x);
  }

  /// Every cell of a line has a candidate list to read.
  predicate Readable(line: seq<Cell>)
  {
    forall k | 0 <= k < |line| :: |line[k].possibleValues| >= 1
  }

  /// Every cell of a line is a cell of the grid and in shape.
  predicate CellsOk(sh: Shape, g: Grid, line: seq<Cell>)
    requires WellFormed(sh, g)
  {
    forall k | 0 <= k < |line| :: InGrid(sh, line[k].row, line[k].column) && ListsOk(line[k])
  }

  /// `List<Cell>.Contains`: some cell of the list sits at y's position.
  predicate Among(cells: seq<Cell>, y: Cell)
  {
    exists k | 0 <= k < |cells| :: SameCell(cells[k], y)
  }

  /// The open cells of the column, row and box of (r, c): the
  /// `*WithoutStartAndAlgo` views.
  function OpenColumn(sh: Shape, g: Grid, c: int): seq<Cell>
    requires WellFormed(sh, g) && 0 <= c < sh.size
  {
    OpenOf(ColumnOf(sh, g, c))
  }

  function OpenRow(sh: Shape, g: Grid, r: int): seq<Cell>
    requires WellFormed(sh, g) && 0 <= r < sh.size
  {
    OpenOf(RowOf(sh, g, r))
  }

  function OpenBox(sh: Shape, g: Grid, r: int, c: int): seq<Cell>
    requires WellFormed(sh, g) && InGrid(sh, r, c)
  {
    OpenOf(BoxOf(sh, g, r, c))
  }

  /// The cells of a grid line are cells of the grid, and so are its open cells.
  lemma OpenLineOk(sh: Shape, g: Grid, line: seq<Cell>)
    requires GridOk(sh, g)
    requires forall k | 0 <= k < |line| :: InGrid(sh, line[k].row, line[k].column) && g[line[k].row][line[k].column] == line[k]
    ensures CellsOk(sh, g, OpenOf(line)) && Readable(OpenOf(line))
    ensures forall y | y in OpenOf(line) :: Open(y) && y == g[y.row][y.column]
  {
    OpenOfMembers(line);
    var o := OpenOf(line);
    forall k | 0 <= k < |o|
      ensures InGrid(sh, o[k].row, o[k].column) && ListsOk(o[k]) && o[k] == g[o[k].row][o[k].column]
    {
      assert o[k] in line;
    }
  }

  /// The three open lines of (r, c) hold cells of the grid, each in shape.
  lemma LinesOk(sh: Shape, g: Grid, r: int, c: int)
    requires GridOk(sh, g) && InGrid(sh, r, c)
    ensures CellsOk(sh, g, OpenColumn(sh, g, c)) && Readable(OpenColumn(sh, g, c))
    ensures CellsOk(sh, g, OpenRow(sh, g, r)) && Readable(OpenRow(sh, g, r))
    ensures CellsOk(sh, g, OpenBox(sh, g, r, c)) && Readable(OpenBox(sh, g, r, c))
    ensures forall y | y in OpenColumn(sh, g, c) :: Open(y) && y == g[y.row][y.column] && y.column == c
    ensures forall y | y in OpenRow(sh, g, r) :: Open(y) && y == g[y.row][y.column] && y.row == r
    ensures forall y | y in OpenBox(sh, g, r, c) :: Open(y) && y == g[y.row][y.column] && SameBox(sh, r, c, y.row, y.column)
  {
    var col, row, box := ColumnOf(sh, g, c), RowOf(sh, g, r), BoxOf(sh, g, r, c);
    OpenLineOk(sh, g, col);
    OpenLineOk(sh, g, row);
    forall k | 0 <= k < |box|
      ensures InGrid(sh, box[k].row, box[k].column) && g[box[k].row][box[k].column] == box[k]
      ensures SameBox(sh, r, c, box[k].row, box[k].column)
    {
      BoxCellPlace(sh, g, r, c, k);
    }
    OpenLineOk(sh, g, box);
    OpenOfMembers(col);
    OpenOfMembers(row);
    OpenOfMembers(box);
  }

  /// Every cell of the line is a cell of the grid, in shape and not a given.
  predicate Searchable(sh: Shape, line: seq<Cell>)
  {
    Placed(sh, line) && forall k | 0 <= k < |line| :: ListsOk(line[k]) && !line[k].startPoint
  }

  /// The three open lines of (r, c) can be searched.
  lemma LinesSearchable(sh: Shape, g: Grid, r: int, c: int)
    requires GridOk(sh, g) && InGrid(sh, r, c)
    ensures Searchable(sh, OpenColumn(sh, g, c)) && Readable(OpenColumn(sh, g, c))
    ensures Searchable(sh, OpenRow(sh, g, r)) && Readable(OpenRow(sh, g, r))
    ensures Searchable(sh, OpenBox(sh, g, r, c)) && Readable(OpenBox(sh, g, r, c))
  {
    LinesOk(sh, g, r, c);
    var col, row, box := OpenColumn(sh, g, c), OpenRow(sh, g, r), OpenBox(sh, g, r, c);
    forall k | 0 <= k < |col| ensures !col[k].startPoint {
      assert col[k] in col;
    }
    forall k | 0 <= k < |row| ensures !row[k].startPoint {
      assert row[k] in row;
    }
    forall k | 0 <= k < |box| ensures !box[k].startPoint {
      assert box[k] in box;
    }
  }

  /// The elements of `list` that are not in `vals`, in order.
  function Drop(list: seq<int>, vals: seq<int>): seq<int>
  {
    if list == [] then []
    else (if list[0] in vals then [] else [list[0]]) + Drop(list[1..], vals)
  }

  lemma {:induction false} DropMembers(list: seq<int>, vals: seq<int>)
    ensures forall u :: u in Drop(list, vals) <==> u in list && u !in vals
    ensures |Drop(list, vals)| <= |list|
  {
    if list != [] {
      DropMembers(list[1..], vals);
      assert list == [list[0]] + list[1..];
    }
  }

  lemma {:induction false} DropNoDups(list: seq<int>, vals: seq<int>)
    requires NoDups(list)
    ensures NoDups(Drop(list, vals))
    ensures list != [] && list[0] !in vals ==> Drop(list, vals)[0] == list[0]
  {
    if list != [] {
      NoDupsCons(list);
      DropNoDups(list[1..], vals);
      DropMembers(list[1..], vals);
      if list[0] !in vals {
        NoDupsCons(Drop(list, vals));
        assert Drop(list, vals)[1..] == Drop(list[1..], vals);
      }
    }
  }

  lemma {:induction false} DropSame(list: seq<int>, vals: seq<int>)
    ensures Drop(list, vals) == list <==> forall u | u in list :: u !in vals
  {
    if list != [] {
      var t := list[1..];
      DropSame(t, vals);
      DropMembers(t, vals);
      assert list == [list[0]] + t;
      if list[0] in vals {
        assert Drop(list, vals) == Drop(t, vals);
        assert |Drop(list, vals)| < |list|;
        assert Drop(list, vals) != list;
        var u := list[0];
        assert u in list && u in vals;
      } else {
        assert Drop(list, vals) == [list[0]] + Drop(t, vals);
        assert Drop(list, vals) == list <==> Drop(t, vals) == t;
        assert (forall u | u in list :: u !in vals) <==> (forall u | u in t :: u !in vals);
      }
    }
  }

  lemma {:induction false} DropMore(list: seq<int>, vals: seq<int>, v: int)
    ensures Without(Drop(list, vals), v) == Drop(list, vals + [v])
  {
    if list != [] {
      DropMore(list[1..], vals, v);
      var rest := Drop(list[1..], vals);
      assert list[0] in vals + [v] <==> list[0] in vals || list[0] == v;
      if list[0] in vals {
        assert Drop(list, vals) == rest;
        assert Drop(list, vals + [v]) == Drop(list[1..], vals + [v]);
      } else {
        var d := [list[0]] + rest;
        assert Drop(list, vals) == d;
        assert d[0] == list[0] && d[1..] == rest;
        if list[0] == v {
          assert Without(d, v) == Without(rest, v);
          assert Drop(list, vals + [v]) == Drop(list[1..], vals + [v]);
        } else {
          assert Without(d, v) == [list[0]] + Without(rest, v);
          assert Drop(list, vals + [v]) == [list[0]] + Drop(list[1..], vals + [v]);
        }
      }
    }
  }

  /// `foreach (int i in vals) if (list.Contains(i)) { changed = true; list.Remove(i); }`:
  /// the edited list and whether any test succeeded.
  function StrikeAll(list: seq<int>, vals: seq<int>): (seq<int>, bool)
  {
    if vals == [] then (list, false)
    else
      var prev := StrikeAll(list, vals[..|vals| - 1]);
      var v := vals[|vals| - 1];
      if v in prev.0 then (RemoveFirst(prev.0, v), true) else prev
  }

  /// On a list without repeats, the edit drops every listed code and reports
  /// a change exactly when the list shrank.
  lemma {:induction false} StrikeAllDrop(list: seq<int>, vals: seq<int>)
    requires NoDups(list)
    ensures StrikeAll(list, vals).0 == Drop(list, vals)
    ensures StrikeAll(list, vals).1 <==> Drop(list, vals) != list
  {
    if vals == [] {
      DropSame(list, vals);
    } else {
      var init, v := vals[..|vals| - 1], vals[|vals| - 1];
      assert vals == init + [v];
      StrikeAllDrop(list, init);
      DropMembers(list, init);
      DropNoDups(list, init);
      DropMembers(list, vals);
      DropSame(list, vals);
      DropSame(list, init);
      RemoveFirstIsWithout(Drop(list, init), v);
      DropMore(list, init, v);
      if v !in Drop(list, init) {
        WithoutAbsent(Drop(list, init), v);
      }
    }
  }

  /// The loop of `ValueExistsInLine` for one cell.
  method StrikeValues(list: seq<int>, vals: seq<int>) returns (r: seq<int>, changed: bool)
    ensures (r, changed) == StrikeAll(list, vals)
  {
    r, changed := list, false;
    for k := 0 to |vals|
      invariant (r, changed) == StrikeAll(list, vals[..k])
    {
      assert vals[..k + 1][..k] == vals[..k];
      if vals[k] in r {
        changed := true;
        r := RemoveFirst(r, vals[k]);
      }
    }
    assert vals[..|vals|] == vals;
  }

  /// Every cell of the list is a cell of the grid.
  predicate Placed(sh: Shape, cells: seq<Cell>)
  {
    forall k | 0 <= k < |cells| :: InGrid(sh, cells[k].row, cells[k].column)
  }

  /// Some cell of the list sits at (a, b).
  predicate Targeted(cells: seq<Cell>, a: int, b: int)
  {
    exists k | 0 <= k < |cells| :: cells[k].row == a && cells[k].column == b
  }

  /// The working list of the cell at (a, b) edited by `StrikeAll`.
  function StrikeAt(sh: Shape, g: Grid, a: int, b: int, vals: seq<int>): (h: Grid)
    requires WellFormed(sh, g) && InGrid(sh, a, b)
    ensures WellFormed(sh, h)
    ensures forall x, y | InGrid(sh, x, y) ::
      h[x][y] == if x == a && y == b then g[a][b].(updated := StrikeAll(g[a][b].updated, vals).0) else g[x][y]
  {
    Put(sh, g, a, b, g[a][b].(updated := StrikeAll(g[a][b].updated, vals).0))
  }

  /// `StrikeAll` on the working list of each target in turn, with whether any
  /// of them changed.
  function StrikeCells(sh: Shape, g: Grid, targets: seq<Cell>, vals: seq<int>): (s: (Grid, bool))
    requires WellFormed(sh, g) && Placed(sh, targets)
    ensures WellFormed(sh, s.0)
  {
    if targets == [] then (g, false)
    else
      var prev := StrikeCells(sh, g, targets[..|targets| - 1], vals);
      var t := targets[|targets| - 1];
      (StrikeAt(sh, prev.0, t.row, t.column, vals),
       prev.1 || StrikeAll(prev.0[t.row][t.column].updated, vals).1)
  }

  /// No working list of the grid repeats a code.
  predicate UpdatedNoDups(sh: Shape, g: Grid)
    requires WellFormed(sh, g)
  {
    forall a, b | 0 <= a < sh.size && 0 <= b < sh.size :: NoDups(g[a][b].updated)
  }

  /// A target list grown by one cell targets one more position.
  lemma TargetedStep(targets: seq<Cell>, a: int, b: int)
    requires targets != []
    ensures var t := targets[|targets| - 1];
      Targeted(targets, a, b) <==> Targeted(targets[..|targets| - 1], a, b) || (a == t.row && b == t.column)
  {
    var init := targets[..|targets| - 1];
    if Targeted(targets, a, b) {
      var k :| 0 <= k < |targets| && targets[k].row == a && targets[k].column == b;
      if k < |init| {
        assert init[k] == targets[k];
      }
    }
    if Targeted(init, a, b) {
      var k :| 0 <= k < |init| && init[k].row == a && init[k].column == b;
      assert targets[k] == init[k];
    }
  }

  /// What striking does: every targeted cell loses the listed codes from its
  /// working list and nothing else changes.
  lemma {:induction false} StrikeCellsEffect(sh: Shape, g: Grid, targets: seq<Cell>, vals: seq<int>)
    requires WellFormed(sh, g) && UpdatedNoDups(sh, g) && Placed(sh, targets)
    ensures var s := StrikeCells(sh, g, targets, vals);
      forall a, b | InGrid(sh, a, b) ::
        s.0[a][b] == if Targeted(targets, a, b) then g[a][b].(updated := Drop(g[a][b].updated, vals)) else g[a][b]
    decreases |targets|
  {
    if targets != [] {
      var init, t := targets[..|targets| - 1], targets[|targets| - 1];
      StrikeCellsEffect(sh, g, init, vals);
      var prev := StrikeCells(sh, g, init, vals).0;
      var h := StrikeCells(sh, g, targets, vals).0;
      var y := g[t.row][t.column];
      assert prev[t.row][t.column] == y || prev[t.row][t.column] == y.(updated := Drop(y.updated, vals));
      assert NoDups(y.updated);
      DropNoDups(y.updated, vals);
      DropTwice(y.updated, vals);
      StrikeAllDrop(prev[t.row][t.column].updated, vals);
      assert h[t.row][t.column] == y.(updated := Drop(y.updated, vals));
      forall a, b | InGrid(sh, a, b)
        ensures h[a][b] == if Targeted(targets, a, b) then g[a][b].(updated := Drop(g[a][b].updated, vals)) else g[a][b]
      {
        TargetedStep(targets, a, b);
      }
    }
  }

  /// The working list of target t holds one of the codes.
  predicate Hit(sh: Shape, g: Grid, t: Cell, vals: seq<int>)
    requires WellFormed(sh, g) && InGrid(sh, t.row, t.column)
  {
    Drop(g[t.row][t.column].updated, vals) != g[t.row][t.column].updated
  }

  /// The change flag is set exactly when some target's working list held one
  /// of the codes.
  lemma {:induction false} StrikeCellsFlag(sh: Shape, g: Grid, targets: seq<Cell>, vals: seq<int>)
    requires WellFormed(sh, g) && UpdatedNoDups(sh, g) && Placed(sh, targets)
    ensures StrikeCells(sh, g, targets, vals).1 <==> exists k | 0 <= k < |targets| :: Hit(sh, g, targets[k], vals)
    decreases |targets|
  {
    if targets != [] {
      var init, t := targets[..|targets| - 1], targets[|targets| - 1];
      StrikeCellsFlag(sh, g, init, vals);
      StrikeCellsEffect(sh, g, init, vals);
      var prev := StrikeCells(sh, g, init, vals);
      var y := g[t.row][t.column];
      var x := prev.0[t.row][t.column];
      assert x == y || x == y.(updated := Drop(y.updated, vals));
      assert NoDups(y.updated);
      DropNoDups(y.updated, vals);
      DropTwice(y.updated, vals);
      StrikeAllDrop(x.updated, vals);
      var hit := StrikeAll(x.updated, vals).1;
      assert StrikeCells(sh, g, targets, vals).1 == (prev.1 || hit);
      HitStep(sh, g, targets, vals);
      if Targeted(init, t.row, t.column) {
        var k :| 0 <= k < |init| && init[k].row == t.row && init[k].column == t.column;
        assert Hit(sh, g, t, vals) == Hit(sh, g, init[k], vals);
        assert !hit;
      } else {
        assert hit == Hit(sh, g, t, vals);
      }
    }
  }

  /// Some target of a list grown by one is hit exactly when some earlier one
  /// is or the new one is.
  lemma HitStep(sh: Shape, g: Grid, targets: seq<Cell>, vals: seq<int>)
    requires WellFormed(sh, g) && Placed(sh, targets) && targets != []
    ensures var init, t := targets[..|targets| - 1], targets[|targets| - 1];
      (exists k | 0 <= k < |targets| :: Hit(sh, g, targets[k], vals)) <==>
      (exists k | 0 <= k < |init| :: Hit(sh, g, init[k], vals)) || Hit(sh, g, t, vals)
  {
    var init := targets[..|targets| - 1];
    assert forall k | 0 <= k < |init| :: init[k] == targets[k];
  }

  /// Striking only narrows working lists, and the change flag is set exactly
  /// when some working list got shorter.
  lemma StrikeCellsNarrowing(sh: Shape, g: Grid, targets: seq<Cell>, vals: seq<int>)
    requires WellFormed(sh, g) && UpdatedNoDups(sh, g) && Placed(sh, targets)
    ensures var s := StrikeCells(sh, g, targets, vals);
      Narrowing(sh, g, s.0) && (s.1 <==> Shrunk(sh, g, s.0))
  {
    StrikeCellsFlag(sh, g, targets, vals);
    StrikeCellsEffect(sh, g, targets, vals);
    var s := StrikeCells(sh, g, targets, vals);
    forall a, b | InGrid(sh, a, b)
      ensures s.0[a][b] == g[a][b].(updated := s.0[a][b].updated)
      ensures |s.0[a][b].updated| <= |g[a][b].updated|
      ensures |s.0[a][b].updated| < |g[a][b].updated| <==> Targeted(targets, a, b) && Drop(g[a][b].updated, vals) != g[a][b].updated
    {
      DropMembers(g[a][b].updated, vals);
      DropShorter(g[a][b].updated, vals);
    }
    if s.1 {
      var k :| 0 <= k < |targets| && Hit(sh, g, targets[k], vals);
      var a, b := targets[k].row, targets[k].column;
      assert Targeted(targets, a, b);
      assert |s.0[a][b].updated| < |g[a][b].updated|;
    }
    if Shrunk(sh, g, s.0) {
      var a, b :| InGrid(sh, a, b) && |s.0[a][b].updated| < |g[a][b].updated|;
      var k :| 0 <= k < |targets| && targets[k].row == a && targets[k].column == b;
      assert Hit(sh, g, targets[k], vals);
    }
  }

  /// h differs from g only in working lists, none of them longer.
  predicate Narrowing(sh: Shape, g: Grid, h: Grid)
  {
    OnlyWorkingLists(sh, g, h) &&
    forall a, b | 0 <= a < sh.size && 0 <= b < sh.size :: |h[a][b].updated| <= |g[a][b].updated|
  }

  /// No working list of g that holds the placeholder code 0 loses it in h.
  predicate KeepsZero(sh: Shape, g: Grid, h: Grid)
    requires WellFormed(sh, g) && WellFormed(sh, h)
  {
    forall a, b | 0 <= a < sh.size && 0 <= b < sh.size :: 0 in g[a][b].updated ==> 0 in h[a][b].updated
  }

  lemma KeepsZeroChain(sh: Shape, g0: Grid, g1: Grid, g2: Grid)
    requires WellFormed(sh, g0) && WellFormed(sh, g1) && WellFormed(sh, g2)
    requires KeepsZero(sh, g0, g1) && KeepsZero(sh, g1, g2)
    ensures KeepsZero(sh, g0, g2)
  {
  }

  /// `UpdateAllPossibles(v)` with a code v other than 0 keeps the grid in
  /// shape and never strikes 0.
  lemma StruckPeersKeepZero(sh: Shape, g: Grid, r: int, c: int, v: int)
    requires GridOk(sh, g) && v != 0
    ensures GridOk(sh, StruckPeers(sh, g, r, c, v)) && KeepsZero(sh, g, StruckPeers(sh, g, r, c, v))
  {
    var h := StruckPeers(sh, g, r, c, v);
    forall a, b | InGrid(sh, a, b) ensures ListsOk(h[a][b]) && (0 in g[a][b].updated ==> 0 in h[a][b].updated) {
      assert ListsOk(g[a][b]);
      if Peer(sh, r, c, a, b) && Stricken(r, c, g[a][b]) {
        StruckOk(g[a][b], v);
        WithoutMembership(g[a][b].updated, v);
      }
    }
  }

  /// Striking codes other than 0 never strikes 0.
  lemma StrikeCellsKeepsZero(sh: Shape, g: Grid, targets: seq<Cell>, vals: seq<int>)
    requires WellFormed(sh, g) && UpdatedNoDups(sh, g) && Placed(sh, targets) && 0 !in vals
    ensures KeepsZero(sh, g, StrikeCells(sh, g, targets, vals).0)
  {
    StrikeCellsEffect(sh, g, targets, vals);
    forall a, b | InGrid(sh, a, b) {
      DropMembers(g[a][b].updated, vals);
    }
  }

  /// Two narrowing steps make one, and it shrinks a list exactly when one of
  /// the steps does.
  lemma NarrowingChain(sh: Shape, g0: Grid, g1: Grid, g2: Grid)
    requires Narrowing(sh, g0, g1) && Narrowing(sh, g1, g2)
    ensures Narrowing(sh, g0, g2)
    ensures Shrunk(sh, g0, g2) <==> Shrunk(sh, g0, g1) || Shrunk(sh, g1, g2)
  {
    forall a, b | InGrid(sh, a, b) ensures g2[a][b] == g0[a][b].(updated := g2[a][b].updated) {
      assert g1[a][b] == g0[a][b].(updated := g1[a][b].updated);
    }
    ShrunkChain(sh, g0, g1, g2);
  }

  lemma ShrunkChain(sh: Shape, g0: Grid, g1: Grid, g2: Grid)
    requires WellFormed(sh, g0) && WellFormed(sh, g1) && WellFormed(sh, g2)
    requires forall a, b | InGrid(sh, a, b) :: |g1[a][b].updated| <= |g0[a][b].updated|
    requires forall a, b | InGrid(sh, a, b) :: |g2[a][b].updated| <= |g1[a][b].updated|
    ensures Shrunk(sh, g0, g2) <==> Shrunk(sh, g0, g1) || Shrunk(sh, g1, g2)
  {
    if Shrunk(sh, g0, g1) {
      var a, b :| InGrid(sh, a, b) && |g1[a][b].updated| < |g0[a][b].updated|;
      assert |g2[a][b].updated| < |g0[a][b].updated|;
    }
    if Shrunk(sh, g1, g2) {
      var a, b :| InGrid(sh, a, b) && |g2[a][b].updated| < |g1[a][b].updated|;
      assert |g2[a][b].updated| < |g0[a][b].updated|;
    }
    if Shrunk(sh, g0, g2) {
      var a, b :| InGrid(sh, a, b) && |g2[a][b].updated| < |g0[a][b].updated|;
      assert |g1[a][b].updated| < |g0[a][b].updated| || |g2[a][b].updated| < |g1[a][b].updated|;
    }
  }

  /// Dropping codes either leaves a list as it is or makes it shorter.
  lemma {:induction false} DropShorter(list: seq<int>, vals: seq<int>)
    ensures Drop(list, vals) != list ==> |Drop(list, vals)| < |list|
  {
    if list != [] {
      var t := list[1..];
      DropShorter(t, vals);
      DropMembers(t, vals);
      assert list == [list[0]] + t;
      if list[0] !in vals {
        assert Drop(list, vals) == [list[0]] + Drop(t, vals);
      }
    }
  }

  lemma DropTwice(list: seq<int>, vals: seq<int>)
    ensures Drop(Drop(list, vals), vals) == Drop(list, vals)
  {
    DropMembers(list, vals);
    DropSame(Drop(list, vals), vals);
  }

  /// A strike that reports no change leaves the grid as it was.
  lemma StrikeCellsIdle(sh: Shape, g: Grid, targets: seq<Cell>, vals: seq<int>)
    requires WellFormed(sh, g) && UpdatedNoDups(sh, g) && Placed(sh, targets)
    ensures !StrikeCells(sh, g, targets, vals).1 ==> StrikeCells(sh, g, targets, vals).0 == g
  {
    var s := StrikeCells(sh, g, targets, vals);
    if !s.1 {
      StrikeCellsFlag(sh, g, targets, vals);
      StrikeCellsEffect(sh, g, targets, vals);
      forall a, b | InGrid(sh, a, b) ensures s.0[a][b] == g[a][b] {
        if Targeted(targets, a, b) {
          var k :| 0 <= k < |targets| && targets[k].row == a && targets[k].column == b;
          assert !Hit(sh, g, targets[k], vals);
        }
      }
      GridExt(sh, s.0, g);
    }
  }

  /// The cells of `line` that are not among `excluded` (the `!list.Contains`
  /// filters of the elimination loops), in order.
  function Others(line: seq<Cell>, excluded: seq<Cell>): (o: seq<Cell>)
    ensures forall y :: y in o <==> y in line && !Among(excluded, y)
    ensures Readable(line) ==> Readable(o)
  {
    if line == [] then []
    else
      var init, y := line[..|line| - 1], line[|line| - 1];
      assert line == init + [y];
      var prev := Others(init, excluded);
      if Among(excluded, y) then prev else prev + [y]
  }

  /// The cells left by the filter are cells of the grid.
  lemma OthersPlaced(sh: Shape, line: seq<Cell>, excluded: seq<Cell>)
    requires Placed(sh, line)
    ensures Placed(sh, Others(line, excluded))
  {
    var o := Others(line, excluded);
    forall k | 0 <= k < |o| ensures InGrid(sh, o[k].row, o[k].column) {
      assert o[k] in line;
      var j :| 0 <= j < |line| && line[j] == o[k];
    }
  }

  /// One more cell of the line: the filter keeps it unless it is excluded.
  lemma OthersStep(line: seq<Cell>, excluded: seq<Cell>, k: int)
    requires 0 <= k < |line|
    ensures var o := Others(line[..k], excluded);
      Others(line[..k + 1], excluded) == if Among(excluded, line[k]) then o else o + [line[k]]
  {
    assert line[..k + 1][..k] == line[..k];
  }

  /// Some cell of the list has v among its candidates.
  predicate Holds(cells: seq<Cell>, v: int)
    requires Readable(cells)
  {
    exists k | 0 <= k < |cells| :: v in Pending(cells[k])
  }

  /// The loop of `GetPossibleValuesForLine`: the candidates of each cell in
  /// turn are removed from `vals`.
  function Survivors(vals: seq<int>, cells: seq<Cell>): seq<int>
    requires Readable(cells)
  {
    if cells == [] then vals
    else StrikeAll(Survivors(vals, cells[..|cells| - 1]), Pending(cells[|cells| - 1])).0
  }

  /// What survives is exactly the codes of `vals` that no cell holds.
  lemma {:induction false} SurvivorsMembers(vals: seq<int>, cells: seq<Cell>)
    requires Readable(cells) && NoDups(vals)
    ensures NoDups(Survivors(vals, cells))
    ensures forall v :: v in Survivors(vals, cells) <==> v in vals && !Holds(cells, v)
  {
    if cells != [] {
      var init, y := cells[..|cells| - 1], cells[|cells| - 1];
      SurvivorsMembers(vals, init);
      var prev := Survivors(vals, init);
      StrikeAllDrop(prev, Pending(y));
      DropMembers(prev, Pending(y));
      DropNoDups(prev, Pending(y));
      forall v ensures Holds(cells, v) <==> Holds(init, v) || v in Pending(y) {
        if Holds(cells, v) {
          var k :| 0 <= k < |cells| && v in Pending(cells[k]);
          if k < |init| {
            assert cells[k] == init[k];
          }
        }
        if Holds(init, v) {
          var k :| 0 <= k < |init| && v in Pending(init[k]);
          assert cells[k] == init[k];
        }
      }
    }
  }

  /// `GetPossibleValuesForLine`: the codes of `vals` left once the candidates
  /// of every cell of the line outside `excluded` are removed.
  method SurvivingValues(vals: seq<int>, line: seq<Cell>, excluded: seq<Cell>) returns (r: seq<int>)
    requires Readable(line)
    ensures r == Survivors(vals, Others(line, excluded))
  {
    r := vals;
    for k := 0 to |line|
      invariant r == Survivors(vals, Others(line[..k], excluded))
    {
      OthersStep(line, excluded, k);
      var o := Others(line[..k], excluded);
      if !Among(excluded, line[k]) {
        assert (o + [line[k]])[..|o|] == o;
        var hit;
        r, hit := StrikeValues(r, Pending(line[k]));
      }
    }
    assert line[..|line|] == line;
  }

  /// The elimination loops (`ValueExistsInLine`, and that of `NakedCandidates`):
  /// every cell of the line outside `excluded` has the codes struck from its
  /// working list.
  method StrikeOthers(p: Puzzle, line: seq<Cell>, excluded: seq<Cell>, vals: seq<int>) returns (changed: bool)
    requires WellFormed(p.shape, p.grid) && Placed(p.shape, line)
    modifies p
    ensures p.shape == old(p.shape) && p.symbols == old(p.symbols)
    ensures Placed(p.shape, Others(line, excluded))
    ensures (p.grid, changed) == StrikeCells(p.shape, old(p.grid), Others(line, excluded), vals)
  {
    changed := false;
    for k := 0 to |line|
      invariant p.shape == old(p.shape) && p.symbols == old(p.symbols)
      invariant Placed(p.shape, Others(line[..k], excluded))
      invariant (p.grid, changed) == StrikeCells(p.shape, old(p.grid), Others(line[..k], excluded), vals)
    {
      OthersStep(line, excluded, k);
      OthersPlaced(p.shape, line[..k + 1], excluded);
      var y := line[k];
      if !Among(excluded, y) {
        StrikeCellsSnoc(p.shape, old(p.grid), Others(line[..k], excluded), y, vals);
        var hit := StrikeCell(p, y.row, y.column, vals);
        changed := changed || hit;
      }
    }
    assert line[..|line|] == line;
  }

  /// The inner loop for one cell: the codes struck from its working list.
  method StrikeCell(p: Puzzle, a: int, b: int, vals: seq<int>) returns (hit: bool)
    requires WellFormed(p.shape, p.grid) && InGrid(p.shape, a, b)
    modifies p
    ensures p.shape == old(p.shape) && p.symbols == old(p.symbols)
    ensures p.grid == StrikeAt(p.shape, old(p.grid), a, b, vals)
    ensures hit == StrikeAll(old(p.grid)[a][b].updated, vals).1
  {
    var list;
    list, hit := StrikeValues(p.grid[a][b].updated, vals);
    p.grid := Put(p.shape, p.grid, a, b, p.grid[a][b].(updated := list));
  }

  /// Striking one more target.
  lemma StrikeCellsSnoc(sh: Shape, g: Grid, targets: seq<Cell>, t: Cell, vals: seq<int>)
    requires WellFormed(sh, g) && Placed(sh, targets) && InGrid(sh, t.row, t.column)
    ensures Placed(sh, targets + [t])
    ensures var prev := StrikeCells(sh, g, targets, vals);
      StrikeCells(sh, g, targets + [t], vals) ==
        (StrikeAt(sh, prev.0, t.row, t.column, vals), prev.1 || StrikeAll(prev.0[t.row][t.column].updated, vals).1)
  {
    assert (targets + [t])[..|targets|] == targets;
  }

  /// Striking codes other than 0 keeps every candidate list in shape.
  lemma StrikeKeepsOk(sh: Shape, g: Grid, targets: seq<Cell>, vals: seq<int>)
    requires GridOk(sh, g) && Placed(sh, targets) && 0 !in vals
    ensures GridOk(sh, StrikeCells(sh, g, targets, vals).0)
  {
    StrikeCellsEffect(sh, g, targets, vals);
    var h := StrikeCells(sh, g, targets, vals).0;
    forall a, b | InGrid(sh, a, b) ensures ListsOk(h[a][b]) {
      assert ListsOk(g[a][b]);
      DropNoDups(g[a][b].updated, vals);
    }
  }

  /// `Intersect(...).Count() > 0` on the candidates of y and x.
  predicate Shares(y: Cell, x: Cell)
  {
    |y.possibleValues| >= 1 && |x.possibleValues| >= 1 && |Intersect(Pending(y), Pending(x))| > 0
  }

  /// Two cells share a candidate exactly when some code is a candidate of both.
  lemma SharesMeans(y: Cell, x: Cell)
    requires |y.possibleValues| >= 1 && |x.possibleValues| >= 1
    ensures Shares(y, x) <==> exists v :: v in Pending(y) && v in Pending(x)
  {
    var a, b := Pending(y), Pending(x);
    SharesIffIntersect(a, b);
    if exists v :: v in a && v in b {
      var v :| v in a && v in b;
      assert |Intersect(a, b)| > 0;
    }
  }

  /// The loop over the box that opens `Pointers.Search` and
  /// `BoxLineReduction.Search`: the other open cells of the box sharing a
  /// candidate with x, split into those of x's row and, failing that, those
  /// of its column.
  function Groups(box: seq<Cell>, x: Cell): (gs: (seq<Cell>, seq<Cell>))
    ensures forall y :: y in gs.0 <==> y in box && !SameCell(y, x) && y.row == x.row && Shares(y, x)
    ensures forall y :: y in gs.1 <==> y in box && !SameCell(y, x) && y.row != x.row && y.column == x.column && Shares(y, x)
  {
    if box == [] then ([], [])
    else
      var init, y := box[..|box| - 1], box[|box| - 1];
      assert box == init + [y];
      var prev := Groups(init, x);
      if SameCell(y, x) then prev
      else if y.row == x.row && Shares(y, x) then (prev.0 + [y], prev.1)
      else if y.column == x.column && Shares(y, x) then (prev.0, prev.1 + [y])
      else prev
  }

  /// The loop itself.
  method BoxGroups(box: seq<Cell>, x: Cell) returns (rows: seq<Cell>, columns: seq<Cell>)
    ensures (rows, columns) == Groups(box, x)
  {
    rows, columns := [], [];
    for k := 0 to |box|
      invariant (rows, columns) == Groups(box[..k], x)
    {
      assert box[..k + 1][..k] == box[..k];
      var y := box[k];
      if !SameCell(y, x) {
        if y.row == x.row && Shares(y, x) {
          rows := rows + [y];
        } else if y.column == x.column && Shares(y, x) {
          columns := columns + [y];
        }
      }
    }
    assert box[..|box|] == box;
  }

  /// Some cell of `scope` other than x and the group holds v.
  predicate HeldOutside(scope: seq<Cell>, x: Cell, group: seq<Cell>, v: int)
    requires Readable(scope)
  {
    exists k | 0 <= k < |scope| :: !Among([x] + group, scope[k]) && v in Pending(scope[k])
  }

  /// `GetPossibleValuesForLine`: the candidates of x that no cell of `scope`
  /// other than x and the group holds.
  function Confined(scope: seq<Cell>, x: Cell, group: seq<Cell>): seq<int>
    requires Readable(scope) && |x.possibleValues| >= 1
  {
    Survivors(Pending(x), Others(scope, [x] + group))
  }

  /// The confined codes are exactly those candidates of x, none 0 and none
  /// repeated.
  lemma ConfinedMembers(scope: seq<Cell>, x: Cell, group: seq<Cell>)
    requires Readable(scope) && ListsOk(x) && !x.startPoint
    ensures NoDups(Confined(scope, x, group)) && 0 !in Confined(scope, x, group)
    ensures forall v :: v in Confined(scope, x, group) <==> v in Pending(x) && !HeldOutside(scope, x, group, v)
  {
    var ex := [x] + group;
    var o := Others(scope, ex);
    PendingOk(x);
    SurvivorsMembers(Pending(x), o);
    forall v ensures Holds(o, v) <==> HeldOutside(scope, x, group, v) {
      if Holds(o, v) {
        var k :| 0 <= k < |o| && v in Pending(o[k]);
        assert o[k] in scope;
        var j :| 0 <= j < |scope| && scope[j] == o[k];
      }
      if HeldOutside(scope, x, group, v) {
        var j :| 0 <= j < |scope| && !Among(ex, scope[j]) && v in Pending(scope[j]);
        assert scope[j] in o;
        var k :| 0 <= k < |o| && o[k] == scope[j];
      }
    }
  }

  /// One case of `Pointers` or `BoxLineReduction`, from the grid h and the
  /// report so far: with a non-empty group and some confined codes, those
  /// codes are struck from every cell of `targets` other than x and the group,
  /// and the report names them and the place.
  function GroupCase(sh: Shape, h: Grid, x: Cell, group: seq<Cell>, scope: seq<Cell>, targets: seq<Cell>,
                     place: string, rep: Report): (Grid, bool, Report)
    requires WellFormed(sh, h) && Readable(scope) && Placed(sh, targets) && |x.possibleValues| >= 1
  {
    var vals := Confined(scope, x, group);
    if |group| > 0 && |vals| > 0 then
      OthersPlaced(sh, targets, [x] + group);
      var t := StrikeCells(sh, h, Others(targets, [x] + group), vals);
      (t.0, t.1, Report(x.row, x.column, Eliminated(vals, place), rep.name))
    else (h, false, rep)
  }

  /// One case only narrows working lists, keeps the grid in shape, reports a
  /// change exactly when a list shrank, and either keeps the report or names
  /// the confined codes at x, keeping the name.
  lemma GroupCaseNarrows(sh: Shape, h: Grid, x: Cell, group: seq<Cell>, scope: seq<Cell>, targets: seq<Cell>,
                         place: string, rep: Report)
    requires GridOk(sh, h) && Readable(scope) && Placed(sh, targets) && ListsOk(x) && !x.startPoint
    ensures var t := GroupCase(sh, h, x, group, scope, targets, place, rep);
      GridOk(sh, t.0) && Narrowing(sh, h, t.0) && (t.1 <==> Shrunk(sh, h, t.0)) && (!t.1 ==> t.0 == h) &&
      (t.2 == rep || t.2 == Report(x.row, x.column, Eliminated(Confined(scope, x, group), place), rep.name)) &&
      (t.1 ==> t.2 == Report(x.row, x.column, Eliminated(Confined(scope, x, group), place), rep.name)) &&
      KeepsZero(sh, h, t.0)
  {
    var vals := Confined(scope, x, group);
    if |group| > 0 && |vals| > 0 {
      ConfinedMembers(scope, x, group);
      OthersPlaced(sh, targets, [x] + group);
      var o := Others(targets, [x] + group);
      StrikeCellsKeepsZero(sh, h, o, vals);
      StrikeKeepsOk(sh, h, o, vals);
      StrikeCellsNarrowing(sh, h, o, vals);
      StrikeCellsIdle(sh, h, o, vals);
    } else {
      forall a, b | InGrid(sh, a, b) ensures h[a][b] == h[a][b].(updated := h[a][b].updated) { }
    }
  }

  /// What a case strikes: every cell of `targets` other than x and the group
  /// loses the confined codes, and nothing else changes.
  lemma GroupCaseStrikes(sh: Shape, h: Grid, x: Cell, group: seq<Cell>, scope: seq<Cell>, targets: seq<Cell>,
                         place: string, rep: Report)
    requires GridOk(sh, h) && Readable(scope) && Placed(sh, targets) && ListsOk(x) && !x.startPoint
    ensures var t := GroupCase(sh, h, x, group, scope, targets, place, rep); var vals := Confined(scope, x, group);
      (|group| > 0 && |vals| > 0 ==>
        forall a, b | InGrid(sh, a, b) ::
          t.0[a][b] == if Targeted(Others(targets, [x] + group), a, b) then h[a][b].(updated := Drop(h[a][b].updated, vals)) else h[a][b]) &&
      (|group| == 0 || |vals| == 0 ==> t == (h, false, rep))
  {
    var vals := Confined(scope, x, group);
    if |group| > 0 && |vals| > 0 {
      OthersPlaced(sh, targets, [x] + group);
      StrikeCellsEffect(sh, h, Others(targets, [x] + group), vals);
    }
  }

  /// `GetPossibleValuesForLine` and `ValueExistsInLine` for one case, under
  /// the guards of `Search`.
  method RunCase(p: Puzzle, x: Cell, group: seq<Cell>, scope: seq<Cell>, targets: seq<Cell>, place: string, rep: Report)
    returns (changed: bool, rep': Report)
    requires WellFormed(p.shape, p.grid) && Readable(scope) && Placed(p.shape, targets) && |x.possibleValues| >= 1
    modifies p
    ensures p.shape == old(p.shape) && p.symbols == old(p.symbols)
    ensures (p.grid, changed, rep') == GroupCase(p.shape, old(p.grid), x, group, scope, targets, place, rep)
  {
    changed, rep' := false, rep;
    if |group| > 0 {
      var vals := SurvivingValues(Pending(x), scope, [x] + group);
      if |group| > 0 && |vals| > 0 {
        changed := StrikeOthers(p, targets, [x] + group, vals);
        rep' := Report(x.row, x.column, Eliminated(vals, place), rep.name);
      }
    }
  }
}
