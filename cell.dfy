/// One square of the grid. The library links every cell to the cell objects of its
/// row, column and box; here a cell is a value that carries its own coordinates,
/// and those relations are computed from them (module Relations).
module Cells {
  import opened Lists

  /// `possibleValues` is the cell's candidate list (code 0 first for a cell that is
  /// not a given); `updated` is the working copy the deduction algorithms narrow
  /// (`updatedPossiblesValues`). The cosmetic `coloured` flag is not modelled.
  datatype Cell = Cell(
    content: int,
    startPoint: bool,
    algorithmEntered: bool,
    row: int,
    column: int,
    possibleValues: seq<int>,
    updated: seq<int>)

  /// A cell still to be solved: neither a given nor filled by an algorithm.
  predicate Open(c: Cell)
  {
    !c.startPoint && !c.algorithmEntered
  }

  /// The empty cell of a manually entered puzzle.
  function BlankCell(row: int, column: int): (c: Cell)
    ensures c.content == 0 && Open(c)
    ensures c.row == row && c.column == column
    ensures c.possibleValues == [] && c.updated == []
  {
    Cell(0, false, false, row, column, [], [])
  }

  /// The candidate list without its first entry, the placeholder code 0.
  function WithoutZero(c: Cell): (r: seq<int>)
    requires |c.possibleValues| >= 1
    ensures c.possibleValues == [c.possibleValues[0]] + r
  {
    c.possibleValues[1..]
  }

  /// When code 0 heads a duplicate-free list, dropping the head leaves exactly the
  /// non-zero candidates.
  lemma WithoutZeroMembers(c: Cell)
    requires |c.possibleValues| >= 1 && c.possibleValues[0] == 0
    requires NoDups(c.possibleValues)
    ensures forall v :: v in WithoutZero(c) <==> v in c.possibleValues && v != 0
    ensures NoDups(WithoutZero(c))
  {
    var p := c.possibleValues;
    forall v | v in WithoutZero(c) ensures v != 0 {
      var k :| 1 <= k < |p| && p[k] == v;
      assert p[0] != p[k];
    }
  }

  /// `Equals`: two cells are the same cell when they sit at the same position.
  predicate SameCell(a: Cell, b: Cell)
  {
    a.row == b.row && a.column == b.column
  }

  /// `Clone` copies the position, the content and the flags; the candidate lists
  /// of the copy start empty.
  function Clone(c: Cell): (r: Cell)
    ensures SameCell(r, c)
    ensures r.content == c.content && r.startPoint == c.startPoint
    ensures r.algorithmEntered == c.algorithmEntered
    ensures r.possibleValues == [] && r.updated == []
  {
    Cell(c.content, c.startPoint, c.algorithmEntered, c.row, c.column, [], [])
  }

  /// The open cells of a line, in line order.
  function OpenOf(line: seq<Cell>): seq<Cell>
  {
    if line == [] then []
    else (if Open(line[0]) then [line[0]] else []) + OpenOf(line[1..])
  }

  /// The filter distributes over concatenation; together with its value on a
  /// single cell this pins it down: the open cells, each once, in their order.
  lemma {:induction false} OpenOfAppend(a: seq<Cell>, b: seq<Cell>)
    ensures OpenOf(a + b) == OpenOf(a) + OpenOf(b)
  {
    if a == [] {
      assert a + b == b;
    } else {
      OpenOfAppend(a[1..], b);
      assert (a + b)[0] == a[0] && (a + b)[1..] == a[1..] + b;
    }
  }

  lemma {:induction false} OpenOfMembers(line: seq<Cell>)
    ensures forall c :: c in OpenOf(line) <==> c in line && Open(c)
    ensures |OpenOf(line)| <= |line|
  {
    if line != [] {
      OpenOfMembers(line[1..]);
      assert line == [line[0]] + line[1..];
    }
  }

  /// The `*WithoutStartAndAlgo` views: the open cells of `line`, in order.
  method OpenCells(line: seq<Cell>) returns (r: seq<Cell>)
    ensures r == OpenOf(line)
  {
    r := [];
    for i := 0 to |line|
      invariant r == OpenOf(line[..i])
    {
      OpenOfAppend(line[..i], [line[i]]);
      assert line[..i + 1] == line[..i] + [line[i]];
      if Open(line[i]) {
        r := r + [line[i]];
      }
    }
    assert line[..|line|] == line;
  }
}
