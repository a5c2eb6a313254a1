/// The geometry of an N x N grid split into boxes of R rows and C columns
/// (N = R * C), and the candidate list each cell derives from its peers.
module Relations {
  import opened Lists
  import opened Cells

  /// N, R and C.
  datatype Shape = Shape(size: int, boxRows: int, boxColumns: int)
  {
    predicate Valid()
    {
      boxRows >= 1 && boxColumns >= 1 && size == boxRows * boxColumns
    }
  }

  /// The rows of the puzzle, top to bottom, each left to right.
  type Grid = seq<seq<Cell>>

  /// An N x N grid whose cells know their own coordinates.
  predicate WellFormed(sh: Shape, g: Grid)
  {
    sh.Valid() && |g| == sh.size &&
    forall i | 0 <= i < |g| ::
      |g[i]| == sh.size &&
      forall j | 0 <= j < |g[i]| :: g[i][j].row == i && g[i][j].column == j
  }

  predicate InGrid(sh: Shape, r: int, c: int)
  {
    0 <= r < sh.size && 0 <= c < sh.size
  }

  /// Multiplying by a non-negative factor keeps the order.
  lemma MulMono(a: int, b: int, d: int)
    ensures a <= b && d >= 0 ==> a * d <= b * d
  {
    if a <= b && d >= 0 {
      var k := b - a;
      assert k * d >= 0;
      assert b * d == a * d + k * d;
    }
  }

  /// Euclidean division is unique.
  lemma DivModUnique(x: int, d: int, q: int, m: int)
    requires d > 0 && 0 <= m < d && x == q * d + m
    ensures x / d == q && x % d == m
  {
    var q', m' := x / d, x % d;
    assert x == q' * d + m' && 0 <= m' < d;
    MulMono(q + 1, q', d);
    MulMono(q' + 1, q, d);
    assert (q + 1) * d == q * d + d && (q' + 1) * d == q' * d + d;
  }

  /// First row of the band of boxes containing row `r`.
  function BoxTop(sh: Shape, r: int): int
    requires sh.Valid()
  {
    (r / sh.boxRows) * sh.boxRows
  }

  /// First column of the stack of boxes containing column `c`.
  function BoxLeft(sh: Shape, c: int): int
    requires sh.Valid()
  {
    (c / sh.boxColumns) * sh.boxColumns
  }

  lemma BoxTopBounds(sh: Shape, r: int)
    requires sh.Valid() && 0 <= r < sh.size
    ensures 0 <= BoxTop(sh, r) <= r < BoxTop(sh, r) + sh.boxRows <= sh.size
  {
    var R, C := sh.boxRows, sh.boxColumns;
    var q := r / R;
    assert r == q * R + r % R;
    MulMono(C, q, R);
    MulMono(q + 1, C, R);
    assert (q + 1) * R == q * R + R;
    MulMono(0, q, R);
  }

  lemma BoxLeftBounds(sh: Shape, c: int)
    requires sh.Valid() && 0 <= c < sh.size
    ensures 0 <= BoxLeft(sh, c) <= c < BoxLeft(sh, c) + sh.boxColumns <= sh.size
  {
    var R, C := sh.boxRows, sh.boxColumns;
    var q := c / C;
    assert c == q * C + c % C;
    MulMono(R, q, C);
    MulMono(q + 1, R, C);
    assert (q + 1) * C == q * C + C;
    MulMono(0, q, C);
  }

  /// Row and column, within the box, of the k-th box cell in row-major order.
  lemma BoxOffsets(sh: Shape, k: int)
    requires sh.Valid() && 0 <= k < sh.size
    ensures 0 <= k / sh.boxColumns < sh.boxRows
    ensures 0 <= k % sh.boxColumns < sh.boxColumns
    ensures (k / sh.boxColumns) * sh.boxColumns + k % sh.boxColumns == k
  {
    var R, C := sh.boxRows, sh.boxColumns;
    var q := k / C;
    assert k == q * C + k % C;
    MulMono(R, q, C);
    MulMono(0, q, C);
  }

  /// Row `r` (`m_Rows[r]`).
  function RowOf(sh: Shape, g: Grid, r: int): (line: seq<Cell>)
    requires WellFormed(sh, g) && 0 <= r < sh.size
    ensures |line| == sh.size
    ensures forall j | 0 <= j < sh.size :: line[j] == g[r][j]
  {
    g[r]
  }

  /// `GetColumn`: the cells of column `c`, top to bottom.
  function ColumnOf(sh: Shape, g: Grid, c: int): (line: seq<Cell>)
    requires WellFormed(sh, g) && 0 <= c < sh.size
    ensures |line| == sh.size
    ensures forall i | 0 <= i < sh.size :: line[i] == g[i][c]
  {
    seq(sh.size, i requires 0 <= i < sh.size => g[i][c])
  }

  /// The k-th cell of the box of (r, c), in row-major order.
  function BoxCell(sh: Shape, g: Grid, r: int, c: int, k: int): (x: Cell)
    requires WellFormed(sh, g) && InGrid(sh, r, c) && 0 <= k < sh.size
    ensures InGrid(sh, x.row, x.column) && g[x.row][x.column] == x
  {
    BoxTopBounds(sh, r);
    BoxLeftBounds(sh, c);
    BoxOffsets(sh, k);
    g[BoxTop(sh, r) + k / sh.boxColumns][BoxLeft(sh, c) + k % sh.boxColumns]
  }

  /// `GetSubGrid`: the R x C cells of the box holding (r, c), row by row.
  function BoxOf(sh: Shape, g: Grid, r: int, c: int): (line: seq<Cell>)
    requires WellFormed(sh, g) && InGrid(sh, r, c)
    ensures |line| == sh.size
    ensures forall k | 0 <= k < sh.size :: line[k] == BoxCell(sh, g, r, c, k)
  {
    seq(sh.size, k requires 0 <= k < sh.size => BoxCell(sh, g, r, c, k))
  }

  /// (i, j) lies in the box of (r, c).
  predicate SameBox(sh: Shape, r: int, c: int, i: int, j: int)
    requires sh.Valid()
  {
    i / sh.boxRows == r / sh.boxRows && j / sh.boxColumns == c / sh.boxColumns
  }

  /// Position of (i, j) within its box, in row-major order.
  function BoxRank(sh: Shape, i: int, j: int): int
    requires sh.Valid()
  {
    (i - BoxTop(sh, i)) * sh.boxColumns + (j - BoxLeft(sh, j))
  }

  /// The k-th cell of a box is the cell of that box whose rank is k.
  lemma BoxCellPlace(sh: Shape, g: Grid, r: int, c: int, k: int)
    requires WellFormed(sh, g) && InGrid(sh, r, c) && 0 <= k < sh.size
    ensures var x := BoxCell(sh, g, r, c, k);
      InGrid(sh, x.row, x.column) && SameBox(sh, r, c, x.row, x.column) &&
      BoxRank(sh, x.row, x.column) == k
  {
    var R, C := sh.boxRows, sh.boxColumns;
    BoxTopBounds(sh, r);
    BoxLeftBounds(sh, c);
    BoxOffsets(sh, k);
    var i, j := BoxTop(sh, r) + k / C, BoxLeft(sh, c) + k % C;
    DivModUnique(i, R, r / R, k / C);
    DivModUnique(j, C, c / C, k % C);
    assert BoxTop(sh, i) == BoxTop(sh, r) && BoxLeft(sh, j) == BoxLeft(sh, c);
  }

  /// Every cell of the box of (r, c) is the cell of the box at its rank.
  lemma BoxRankPlace(sh: Shape, g: Grid, r: int, c: int, i: int, j: int)
    requires WellFormed(sh, g) && InGrid(sh, r, c) && InGrid(sh, i, j)
    requires SameBox(sh, r, c, i, j)
    ensures 0 <= BoxRank(sh, i, j) < sh.size
    ensures BoxCell(sh, g, r, c, BoxRank(sh, i, j)) == g[i][j]
  {
    var R, C := sh.boxRows, sh.boxColumns;
    BoxTopBounds(sh, i);
    BoxLeftBounds(sh, j);
    var a, b := i - BoxTop(sh, i), j - BoxLeft(sh, j);
    assert 0 <= a < R && 0 <= b < C;
    var k := a * C + b;
    assert k < R * C by {
      MulMono(a, R - 1, C);
      assert (R - 1) * C == R * C - C;
    }
    DivModUnique(k, C, a, b);
    assert BoxTop(sh, r) == BoxTop(sh, i) by {
      assert r / R == i / R;
    }
    assert BoxLeft(sh, c) == BoxLeft(sh, j) by {
      assert c / C == j / C;
    }
    assert BoxRank(sh, i, j) == k;
    assert BoxCell(sh, g, r, c, k) == g[BoxTop(sh, r) + k / C][BoxLeft(sh, c) + k % C];
  }

  /// The codes held by the cells of a line.
  function Contents(line: seq<Cell>): (r: seq<int>)
    ensures |r| == |line|
    ensures forall i | 0 <= i < |line| :: r[i] == line[i].content
  {
    seq(|line|, i requires 0 <= i < |line| => line[i].content)
  }

  lemma ContentsPrefix(line: seq<Cell>, i: int)
    requires 0 <= i < |line|
    ensures Contents(line[..i + 1]) == Contents(line[..i]) + [line[i].content]
  {
  }

  /// `RemovePossibles`: a peer's non-zero code leaves the list, unless it is the
  /// cell's own code.
  function RemovePossibles(self: Cell, peer: Cell, possibles: seq<int>): seq<int>
  {
    if peer.content != 0 && peer.content in possibles && peer.content != self.content
    then RemoveFirst(possibles, peer.content)
    else possibles
  }

  lemma RemovePossiblesEffect(self: Cell, peer: Cell, possibles: seq<int>)
    requires Increasing(possibles)
    ensures var r := RemovePossibles(self, peer, possibles);
      Increasing(r) &&
      forall v :: v in r <==>
        v in possibles && !(v == peer.content && v != 0 && v != self.content)
  {
    var x := peer.content;
    RemoveFirstIsWithout(possibles, x);
    WithoutIncreasing(possibles, x);
    WithoutMembership(possibles, x);
  }

  /// Code v is struck from the candidates of the cell at (r, c): it is a code
  /// other than 0 and the cell's own, held by a row, column or box peer.
  predicate Blocked(sh: Shape, g: Grid, r: int, c: int, v: int)
    requires WellFormed(sh, g) && InGrid(sh, r, c)
  {
    v != 0 && v != g[r][c].content &&
    (v in Contents(RowOf(sh, g, r)) || v in Contents(ColumnOf(sh, g, c)) ||
     v in Contents(BoxOf(sh, g, r, c)))
  }

  /// The candidate list `SetPossibleValues` computes: a given has only its own
  /// code; any other cell has the codes 0..N, ascending, that no peer blocks.
  /// The source takes 0..N from the active symbol table, assumed to be the
  /// puzzle's own (N+1 slots).
  function Candidates(sh: Shape, g: Grid, r: int, c: int): seq<int>
    requires WellFormed(sh, g) && InGrid(sh, r, c)
  {
    if g[r][c].startPoint then [g[r][c].content]
    else Keep(Range(0, sh.size + 1), v => !Blocked(sh, g, r, c, v))
  }

  /// What the candidate list holds, and that it is ascending with code 0 first.
  lemma CandidatesSpec(sh: Shape, g: Grid, r: int, c: int)
    requires WellFormed(sh, g) && InGrid(sh, r, c)
    ensures g[r][c].startPoint ==> Candidates(sh, g, r, c) == [g[r][c].content]
    ensures !g[r][c].startPoint ==>
      Increasing(Candidates(sh, g, r, c)) &&
      (forall v :: v in Candidates(sh, g, r, c) <==> 0 <= v <= sh.size && !Blocked(sh, g, r, c, v)) &&
      Candidates(sh, g, r, c)[0] == 0
  {
    if !g[r][c].startPoint {
      var f := v => !Blocked(sh, g, r, c, v);
      RangeIncreasing(0, sh.size + 1);
      KeepIncreasing(Range(0, sh.size + 1), f);
      KeepMembers(Range(0, sh.size + 1), f);
      var p := Candidates(sh, g, r, c);
      assert 0 in p;
      HeadIsLeast(p, 0);
      assert forall v :: v in p ==> 0 <= v;
    }
  }

  /// Code v is blocked by one of the first i cells of the cell's row, column or box.
  predicate BlockedWithin(sh: Shape, g: Grid, r: int, c: int, v: int, i: int)
    requires WellFormed(sh, g) && InGrid(sh, r, c) && 0 <= i <= sh.size
  {
    v != 0 && v != g[r][c].content &&
    (v in Contents(RowOf(sh, g, r)[..i]) || v in Contents(ColumnOf(sh, g, c)[..i]) ||
     v in Contents(BoxOf(sh, g, r, c)[..i]))
  }

  /// One round of `SetPossibleValues`: striking the i-th row, column and box
  /// peer extends the blocking range by one.
  lemma StrikeRound(sh: Shape, g: Grid, r: int, c: int, i: int, possibles: seq<int>)
    requires WellFormed(sh, g) && InGrid(sh, r, c) && 0 <= i < sh.size
    requires Increasing(possibles)
    requires forall v :: v in possibles <==> 0 <= v <= sh.size && !BlockedWithin(sh, g, r, c, v, i)
    ensures var self := g[r][c];
      var p1 := RemovePossibles(self, RowOf(sh, g, r)[i], possibles);
      var p2 := RemovePossibles(self, ColumnOf(sh, g, c)[i], p1);
      var p3 := RemovePossibles(self, BoxOf(sh, g, r, c)[i], p2);
      Increasing(p3) &&
      forall v :: v in p3 <==> 0 <= v <= sh.size && !BlockedWithin(sh, g, r, c, v, i + 1)
  {
    var self := g[r][c];
    var row, column, box := RowOf(sh, g, r), ColumnOf(sh, g, c), BoxOf(sh, g, r, c);
    ContentsPrefix(row, i);
    ContentsPrefix(column, i);
    ContentsPrefix(box, i);
    var p1 := RemovePossibles(self, row[i], possibles);
    RemovePossiblesEffect(self, row[i], possibles);
    var p2 := RemovePossibles(self, column[i], p1);
    RemovePossiblesEffect(self, column[i], p1);
    var p3 := RemovePossibles(self, box[i], p2);
    RemovePossiblesEffect(self, box[i], p2);
  }

  /// `SetPossibleValues`: starting from the fresh list 0..N, strike the code of the
  /// i-th row, column and box peer for each i in turn.
  method SetPossibleValues(sh: Shape, g: Grid, r: int, c: int) returns (possibles: seq<int>)
    requires WellFormed(sh, g) && InGrid(sh, r, c)
    ensures possibles == Candidates(sh, g, r, c)
  {
    var self := g[r][c];
    if self.startPoint {
      possibles := [self.content];
      return;
    }
    var row, column, box := RowOf(sh, g, r), ColumnOf(sh, g, c), BoxOf(sh, g, r, c);
    possibles := Range(0, sh.size + 1);
    RangeIncreasing(0, sh.size + 1);
    for i := 0 to sh.size
      invariant Increasing(possibles)
      invariant forall v :: v in possibles <==> 0 <= v <= sh.size && !BlockedWithin(sh, g, r, c, v, i)
    {
      StrikeRound(sh, g, r, c, i, possibles);
      possibles := RemovePossibles(self, row[i], possibles);
      possibles := RemovePossibles(self, column[i], possibles);
      possibles := RemovePossibles(self, box[i], possibles);
    }
    assert row[..sh.size] == row && column[..sh.size] == column && box[..sh.size] == box;
    CandidatesSpec(sh, g, r, c);
    IncreasingUnique(possibles, Candidates(sh, g, r, c));
  }

  /// (i, j) shares the row, the column or the box of (r, c); a cell is its own peer.
  predicate Peer(sh: Shape, r: int, c: int, i: int, j: int)
    requires sh.Valid()
  {
    i == r || j == c || SameBox(sh, r, c, i, j)
  }

  /// A code in the row, column or box list is held by a peer.
  lemma LineCodeAtPeer(sh: Shape, g: Grid, r: int, c: int, v: int) returns (i: int, j: int)
    requires WellFormed(sh, g) && InGrid(sh, r, c)
    requires v in Contents(RowOf(sh, g, r)) || v in Contents(ColumnOf(sh, g, c)) ||
             v in Contents(BoxOf(sh, g, r, c))
    ensures InGrid(sh, i, j) && Peer(sh, r, c, i, j) && g[i][j].content == v
  {
    var row, column, box := Contents(RowOf(sh, g, r)), Contents(ColumnOf(sh, g, c)), Contents(BoxOf(sh, g, r, c));
    if v in row {
      var k :| 0 <= k < sh.size && row[k] == v;
      i, j := r, k;
      assert g[i][j].content == row[k];
    } else if v in column {
      var k :| 0 <= k < sh.size && column[k] == v;
      i, j := k, c;
      assert g[i][j].content == column[k];
    } else {
      var k :| 0 <= k < sh.size && box[k] == v;
      BoxCellPlace(sh, g, r, c, k);
      var x := BoxCell(sh, g, r, c, k);
      assert x.content == box[k];
      i, j := x.row, x.column;
    }
  }

  /// A peer's code is in the row, column or box list.
  lemma PeerCodeInLines(sh: Shape, g: Grid, r: int, c: int, i: int, j: int)
    requires WellFormed(sh, g) && InGrid(sh, r, c) && InGrid(sh, i, j) && Peer(sh, r, c, i, j)
    ensures var v := g[i][j].content;
      v in Contents(RowOf(sh, g, r)) || v in Contents(ColumnOf(sh, g, c)) ||
      v in Contents(BoxOf(sh, g, r, c))
  {
    if i == r {
      assert Contents(RowOf(sh, g, r))[j] == g[i][j].content;
    } else if j == c {
      assert Contents(ColumnOf(sh, g, c))[i] == g[i][j].content;
    } else {
      BoxRankPlace(sh, g, r, c, i, j);
      assert Contents(BoxOf(sh, g, r, c))[BoxRank(sh, i, j)] == g[i][j].content;
    }
  }

  /// The row, column and box lists hold exactly the peers' codes.
  lemma LinesArePeers(sh: Shape, g: Grid, r: int, c: int, v: int)
    requires WellFormed(sh, g) && InGrid(sh, r, c)
    ensures (v in Contents(RowOf(sh, g, r)) || v in Contents(ColumnOf(sh, g, c)) ||
             v in Contents(BoxOf(sh, g, r, c))) <==>
            exists i, j | InGrid(sh, i, j) && Peer(sh, r, c, i, j) :: g[i][j].content == v
  {
    if v in Contents(RowOf(sh, g, r)) || v in Contents(ColumnOf(sh, g, c)) ||
       v in Contents(BoxOf(sh, g, r, c)) {
      var i, j := LineCodeAtPeer(sh, g, r, c, v);
    }
    forall i, j | InGrid(sh, i, j) && Peer(sh, r, c, i, j) && g[i][j].content == v
      ensures v in Contents(RowOf(sh, g, r)) || v in Contents(ColumnOf(sh, g, c)) ||
              v in Contents(BoxOf(sh, g, r, c))
    {
      PeerCodeInLines(sh, g, r, c, i, j);
    }
  }

  /// The candidates of a cell other than a given, stated over its peers: code v
  /// (0 <= v <= N) is kept exactly when it is 0, the cell's own code, or held by
  /// no peer.
  lemma CandidatesByPeers(sh: Shape, g: Grid, r: int, c: int, v: int)
    requires WellFormed(sh, g) && InGrid(sh, r, c) && !g[r][c].startPoint
    ensures v in Candidates(sh, g, r, c) <==>
      0 <= v <= sh.size &&
      (v == 0 || v == g[r][c].content ||
       forall i, j | InGrid(sh, i, j) && Peer(sh, r, c, i, j) :: g[i][j].content != v)
  {
    CandidatesSpec(sh, g, r, c);
    LinesArePeers(sh, g, r, c, v);
  }

  /// Two grids with the same codes and the same givens, cell by cell.
  predicate SameBoard(sh: Shape, g: Grid, h: Grid)
  {
    WellFormed(sh, g) && WellFormed(sh, h) &&
    forall i, j | 0 <= i < sh.size && 0 <= j < sh.size ::
      g[i][j].content == h[i][j].content && g[i][j].startPoint == h[i][j].startPoint
  }

  /// Candidates depend only on the codes and the givens.
  lemma CandidatesFrame(sh: Shape, g: Grid, h: Grid, r: int, c: int)
    requires SameBoard(sh, g, h) && InGrid(sh, r, c)
    ensures Candidates(sh, g, r, c) == Candidates(sh, h, r, c)
  {
    assert Contents(RowOf(sh, g, r)) == Contents(RowOf(sh, h, r));
    assert Contents(ColumnOf(sh, g, c)) == Contents(ColumnOf(sh, h, c));
    assert Contents(BoxOf(sh, g, r, c)) == Contents(BoxOf(sh, h, r, c)) by {
      forall k | 0 <= k < sh.size ensures BoxCell(sh, g, r, c, k).content == BoxCell(sh, h, r, c, k).content {
        BoxTopBounds(sh, r);
        BoxLeftBounds(sh, c);
        BoxOffsets(sh, k);
      }
    }
    if !g[r][c].startPoint {
      KeepSame(Range(0, sh.size + 1), v => !Blocked(sh, g, r, c, v), v => !Blocked(sh, h, r, c, v));
    }
  }
}
