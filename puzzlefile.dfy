/// The text format of a saved puzzle, as pure string functions: the cell tokens
/// of a row line (read by `SetRow`, written by `SaveFile`) and the sub-grid
/// header line (read by `GetSubGridSize`, written by `GridSize.ToString`).
module PuzzleFiles {
  import opened Wrappers
  import opened Numerals
  import opened Cells
  import GridSizes

  const ContentError := "File read error - Puzzle content must contain values from 0 to puzzle size"
  const RangeError := "File read error - Cell value must be in the range of 0 to the size of the puzzle"
  /// What `string[0]` throws on an empty token.
  const EmptyTokenError := "Index was outside the bounds of the array."
  const HeaderError := "File read error - There must only be 1 sub grid size of rows followed by collumns eg. 3x3"

  /// The leading letter that marks a user (`u`) or algorithm (`a`) entry, in either case.
  predicate Marker(ch: char)
  {
    ch == 'u' || ch == 'U' || ch == 'a' || ch == 'A'
  }

  /// The token without its marker.
  function Content(token: string): (s: string)
    requires token != []
    ensures Marker(token[0]) ==> s == token[1..]
    ensures !Marker(token[0]) ==> s == token
  {
    if Marker(token[0]) then token[1..] else token
  }

  /// One token of a row line, read as the cell at (row, column): an optional
  /// marker, then an integer from 0 to n. A given is a non-zero cell without a
  /// marker; an `a` marker means algorithm-entered.
  function ParseToken(token: string, n: int, row: int, column: int): (r: Result<Cell>)
    ensures token == [] ==> r == Err(EmptyTokenError)
    ensures r.Ok? ==> var x := r.value;
      0 <= x.content <= n && x.row == row && x.column == column &&
      (x.startPoint <==> x.content != 0 && !Marker(token[0])) &&
      (x.algorithmEntered <==> token[0] == 'a' || token[0] == 'A') &&
      x.possibleValues == [] && x.updated == [] &&
      var v := TryParse(Content(token)); v.Some? && v.value as int == x.content
    ensures r.Err? && token != [] ==> var v := TryParse(Content(token));
      (v.None? && r.error == ContentError) || (v.Some? && !(0 <= v.value as int <= n) && r.error == RangeError)
  {
    if token == [] then Err(EmptyTokenError)
    else
      var marked := Marker(token[0]);
      match TryParse(Content(token))
      case None => Err(ContentError)
      case Some(v) =>
        if v as int > n || v < 0 then Err(RangeError)
        else Ok(Cell(v as int, v != 0 && !marked, token[0] == 'a' || token[0] == 'A', row, column, [], []))
  }

  /// `SetRow`: the cells of row `row`, one per token, the column being the
  /// token's position; the first token that does not read throws.
  method SetRow(tokens: seq<string>, n: int, row: int) returns (r: Result<seq<Cell>>)
    ensures r.Ok? ==> |r.value| == |tokens|
    ensures r.Ok? ==> forall i | 0 <= i < |tokens| :: ParseToken(tokens[i], n, row, i) == Ok(r.value[i])
    ensures r.Err? ==> exists k | 0 <= k < |tokens| ::
      ParseToken(tokens[k], n, row, k) == Err(r.error) &&
      forall i | 0 <= i < k :: ParseToken(tokens[i], n, row, i).Ok?
  {
    var cells := [];
    for i := 0 to |tokens|
      invariant |cells| == i
      invariant forall j | 0 <= j < i :: ParseToken(tokens[j], n, row, j) == Ok(cells[j])
    {
      var x := ParseToken(tokens[i], n, row, i);
      if x.Err? {
        assert forall j | 0 <= j < i :: ParseToken(tokens[j], n, row, j).Ok?;
        return Err(x.error);
      }
      CellsStep(tokens, n, row, i, cells, x.value);
      cells := cells + [x.value];
    }
    r := Ok(cells);
  }

  lemma CellsStep(tokens: seq<string>, n: int, row: int, i: int, cells: seq<Cell>, x: Cell)
    requires 0 <= i < |tokens| && |cells| == i && ParseToken(tokens[i], n, row, i) == Ok(x)
    requires forall j | 0 <= j < i :: ParseToken(tokens[j], n, row, j) == Ok(cells[j])
    ensures forall j | 0 <= j < i + 1 :: ParseToken(tokens[j], n, row, j) == Ok((cells + [x])[j])
  {
    forall j | 0 <= j < i + 1 ensures ParseToken(tokens[j], n, row, j) == Ok((cells + [x])[j]) {
      if j < i {
        assert (cells + [x])[j] == cells[j];
      }
    }
  }

  /// The token `SaveFile` writes for a cell: `A` for an algorithm entry, else
  /// `U` for a cell that is not a given, then the code.
  function SaveToken(x: Cell): (t: string)
    ensures |t| >= 1
  {
    (if x.algorithmEntered then "A" else if !x.startPoint then "U" else "") + Format(x.content)
  }

  /// A row line as `SaveFile` writes it: the tokens with one space between them.
  function SaveLine(row: seq<Cell>): string
    requires |row| >= 1
  {
    GridSizes.Join(SaveTokens(row), ' ')
  }

  function SaveTokens(row: seq<Cell>): (ts: seq<string>)
    ensures |ts| == |row|
    ensures forall i | 0 <= i < |row| :: ts[i] == SaveToken(row[i])
  {
    seq(|row|, i requires 0 <= i < |row| => SaveToken(row[i]))
  }

  /// The cells whose token reads back as the same cell: a code from 0 to n, a
  /// given only with a non-zero code, and never both a given and an algorithm
  /// entry.
  predicate Savable(x: Cell, n: int)
  {
    0 <= x.content <= n && n < 0x8000_0000 && (x.startPoint ==> x.content != 0) &&
    !(x.startPoint && x.algorithmEntered)
  }

  lemma FormatNoSpace(x: int)
    ensures ' ' !in Format(x) && |Format(x)| >= 1
    ensures x >= 0 ==> IsDigit(Format(x)[0])
  {
    GridSizes.FormatChars(x);
  }

  /// Reading a saved token gives back the cell as `Cell.Clone` copies it.
  lemma TokenRoundTrip(x: Cell, n: int)
    requires Savable(x, n)
    ensures ParseToken(SaveToken(x), n, x.row, x.column) == Ok(Cells.Clone(x))
  {
    var f := Format(x.content);
    FormatNoSpace(x.content);
    ParsesBack(x.content);
    if x.algorithmEntered {
      assert SaveToken(x) == ['A'] + f;
      ParseMarked('A', f, x.content, n, x.row, x.column);
    } else if !x.startPoint {
      assert SaveToken(x) == ['U'] + f;
      ParseMarked('U', f, x.content, n, x.row, x.column);
    } else {
      assert SaveToken(x) == f;
      ParseUnmarked(f, x.content as int32, n, x.row, x.column);
    }
  }

  lemma ParseMarked(m: char, f: string, v: int, n: int, row: int, column: int)
    requires Marker(m) && 0 <= v <= n && v < 0x8000_0000 && TryParse(f) == Some(v as int32)
    ensures ParseToken([m] + f, n, row, column) == Ok(Cell(v, false, m == 'a' || m == 'A', row, column, [], []))
  {
    assert ([m] + f)[1..] == f && Content([m] + f) == f;
    ParseRead([m] + f, v as int32, n, row, column);
  }

  lemma ParseUnmarked(f: string, w: int32, n: int, row: int, column: int)
    requires f != [] && IsDigit(f[0]) && 0 <= w as int <= n && TryParse(f) == Some(w)
    ensures ParseToken(f, n, row, column) == Ok(Cell(w as int, w != 0, false, row, column, [], []))
  {
    assert !Marker(f[0]) && f[0] != 'a' && f[0] != 'A';
    ParseRead(f, w, n, row, column);
  }

  /// A token whose content reads as a code from 0 to n gives its cell.
  lemma ParseRead(token: string, w: int32, n: int, row: int, column: int)
    requires token != [] && TryParse(Content(token)) == Some(w) && 0 <= w as int <= n
    ensures ParseToken(token, n, row, column) ==
      Ok(Cell(w as int, w != 0 && !Marker(token[0]), token[0] == 'a' || token[0] == 'A', row, column, [], []))
  {
  }

  /// A saved row line splits back, at its single spaces, into the saved tokens,
  /// and each reads back as its cell.
  lemma LineRoundTrip(row: seq<Cell>, n: int, r: int)
    requires |row| >= 1
    requires forall i | 0 <= i < |row| :: Savable(row[i], n) && row[i].row == r && row[i].column == i
    ensures GridSizes.Split(SaveLine(row), ' ') == SaveTokens(row)
    ensures forall i | 0 <= i < |row| :: ParseToken(SaveTokens(row)[i], n, r, i) == Ok(Cells.Clone(row[i]))
  {
    var ts := SaveTokens(row);
    forall i | 0 <= i < |row| ensures ' ' !in ts[i] {
      FormatNoSpace(row[i].content);
      var p := if row[i].algorithmEntered then "A" else if !row[i].startPoint then "U" else "";
      assert ts[i] == p + Format(row[i].content);
    }
    SplitJoin(ts, ' ');
    forall i | 0 <= i < |row| ensures ParseToken(ts[i], n, r, i) == Ok(Cells.Clone(row[i])) {
      TokenRoundTrip(row[i], n);
    }
  }

  /// Splitting the pieces joined by a separator none of them holds gives the
  /// pieces back.
  lemma {:induction false} SplitJoin(parts: seq<string>, sep: char)
    requires |parts| >= 1
    requires forall i | 0 <= i < |parts| :: sep !in parts[i]
    ensures GridSizes.Split(GridSizes.Join(parts, sep), sep) == parts
  {
    if |parts| == 1 {
      GridSizes.SplitNone(parts[0], sep);
    } else {
      SplitJoin(parts[1..], sep);
      SplitPrefix(parts[0], sep, GridSizes.Join(parts[1..], sep));
      assert parts == [parts[0]] + parts[1..];
    }
  }

  lemma {:induction false} SplitPrefix(a: string, sep: char, b: string)
    requires sep !in a
    ensures GridSizes.Split(a + [sep] + b, sep) == [a] + GridSizes.Split(b, sep)
    decreases |a|
  {
    if a == [] {
      assert (a + [sep] + b)[1..] == b;
    } else {
      assert (a + [sep] + b)[1..] == a[1..] + [sep] + b;
      SplitPrefix(a[1..], sep, b);
      assert [a[0]] + a[1..] == a;
    }
  }

  /// `GetSubGridSize`: the header must be exactly 3 characters, parse as a size
  /// and have R x C equal to the puzzle size n.
  function GetSubGridSize(line: string, n: int): (r: Result<(int32, int32)>)
    ensures |line| != 3 ==> r == Err(HeaderError)
    ensures r.Ok? <==> (|line| == 3 && GridSizes.Parse(line).Ok? &&
      GridSizes.Parse(line).value.0 as int * GridSizes.Parse(line).value.1 as int == n)
    ensures r.Ok? ==> r == GridSizes.Parse(line) && r.value.0 > 1 && r.value.1 > 1
  {
    if |line| != 3 then Err(HeaderError)
    else
      match GridSizes.Parse(line)
      case Err(e) => Err(e)
      case Ok(size) =>
        var product := size.0 as int * size.1 as int;
        if product != n then
          Err("File read error - Sub grid values must multiply (" + Format(product) +
              ") to equal the length of the symbol set (" + Format(n) + ") (Puzzle size)")
        else Ok(size)
  }

  /// The header `SaveFile` writes (`GridSize.ToString`, "R x C") is never read
  /// back: it is longer than 3 characters.
  lemma SavedHeaderRejected(rows: int32, columns: int32, n: int)
    requires rows > 1 && columns > 1
    ensures GetSubGridSize(GridSizes.SizeText(rows, columns), n) == Err(HeaderError)
  {
    GridSizes.SizeTextLength(rows, columns);
  }

  /// The header reader as evidently intended: any text that parses as a size
  /// with R x C equal to n, without the 3-character test, so that the header
  /// `SaveFile` writes reads back.
  function HeaderSize(line: string, n: int): (r: Result<(int32, int32)>)
    ensures r.Ok? <==> (GridSizes.Parse(line).Ok? &&
      GridSizes.Parse(line).value.0 as int * GridSizes.Parse(line).value.1 as int == n)
    ensures r.Ok? ==> r == GridSizes.Parse(line) && r.value.0 > 1 && r.value.1 > 1
  {
    match GridSizes.Parse(line)
    case Err(e) => Err(e)
    case Ok(size) =>
      var product := size.0 as int * size.1 as int;
      if product != n then
        Err("File read error - Sub grid values must multiply (" + Format(product) +
            ") to equal the length of the symbol set (" + Format(n) + ") (Puzzle size)")
      else Ok(size)
  }

  /// The corrected reader reads back the header `SaveFile` writes.
  lemma HeaderRoundTrip(rows: int32, columns: int32)
    requires rows > 1 && columns > 1
    ensures HeaderSize(GridSizes.SizeText(rows, columns), rows as int * columns as int) == Ok((rows, columns))
  {
    GridSizes.ParseSizeText(rows, columns);
  }

  /// On the 3-character headers the loader accepts, the corrected reader
  /// agrees with it, so no file that loads today is read differently.
  lemma HeaderSizeAgrees(line: string, n: int)
    requires |line| == 3
    ensures HeaderSize(line, n) == GetSubGridSize(line, n)
  {
  }

  /// The header the loader does accept: one digit, `x`, one digit.
  lemma HeaderLoads(rows: int32, columns: int32)
    requires 2 <= rows <= 9 && 2 <= columns <= 9
    ensures GetSubGridSize(Format(rows as int) + "x" + Format(columns as int), rows as int * columns as int) == Ok((rows, columns))
  {
    var line := Format(rows as int) + "x" + Format(columns as int);
    DigitHeaderParses(rows, columns);
    assert |line| == 3 && GridSizes.Parse(line) == Ok((rows, columns));
  }

  lemma DigitHeaderParses(rows: int32, columns: int32)
    requires 2 <= rows <= 9 && 2 <= columns <= 9
    ensures |Format(rows as int) + "x" + Format(columns as int)| == 3
    ensures GridSizes.Parse(Format(rows as int) + "x" + Format(columns as int)) == Ok((rows, columns))
  {
    var a, b := Format(rows as int), Format(columns as int);
    var line := a + "x" + b;
    assert |a| == 1 && |b| == 1 && IsDigit(a[0]) && IsDigit(b[0]);
    assert GridSizes.ToLowerAscii(line) == line;
    assert line == a + ['x'] + b;
    GridSizes.SplitAround(a, 'x', b);
    DigitSize(rows);
    DigitSize(columns);
    assert GridSizes.Split(GridSizes.ToLowerAscii(line), 'x') == [a, b];
  }

  lemma DigitSize(v: int32)
    requires 2 <= v <= 9
    ensures GridSizes.TrySize(Format(v as int)) == Some(v)
  {
    var s := Format(v as int);
    assert AllSpaces([]);
    assert s == [] + s + [];
    FormatThenParse([], v, []);
    assert TryParse(s) == Some(v);
  }
}
