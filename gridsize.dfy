/// The size of a sub-grid, `rowCount` x `columnCount`, its text form "R x C"
/// and the parser of that form.
module GridSizes {
  import opened Wrappers
  import opened Numerals

  class GridSize {
    var rowCount: int32
    var columnCount: int32

    /// The constructor stores its arguments without checking them.
    constructor (rows: int32, columns: int32)
      ensures rowCount == rows && columnCount == columns
    {
      rowCount := rows;
      columnCount := columns;
    }

    /// The `rowCount` setter: a value of 1 or less throws and leaves the field.
    method SetRowCount(value: int32) returns (o: Outcome)
      modifies this
      ensures value > 1 ==> o == Pass && rowCount == value
      ensures value <= 1 ==> o.Fail? && rowCount == old(rowCount)
      ensures columnCount == old(columnCount)
    {
      if value > 1 {
        rowCount := value;
        o := Pass;
      } else {
        o := Fail("Grid size error - size must be greater than 1");
      }
    }

    /// The `columnCount` setter: a value of 1 or less throws and leaves the field.
    method SetColumnCount(value: int32) returns (o: Outcome)
      modifies this
      ensures value > 1 ==> o == Pass && columnCount == value
      ensures value <= 1 ==> o.Fail? && columnCount == old(columnCount)
      ensures rowCount == old(rowCount)
    {
      if value > 1 {
        columnCount := value;
        o := Pass;
      } else {
        o := Fail("Grid size error - size must be greater than 1");
      }
    }

    function ToString(): string
      reads this
    {
      SizeText(rowCount, columnCount)
    }
  }

  /// `ToString`: "R x C", with a space on either side of the `x`.
  function SizeText(rows: int32, columns: int32): string
  {
    Format(rows as int) + " x " + Format(columns as int)
  }

  /// `ToLower` on the characters a size can hold: ASCII letters.
  function ToLowerAscii(s: string): (t: string)
    ensures |t| == |s|
  {
    seq(|s|, i requires 0 <= i < |s| => if 'A' <= s[i] <= 'Z' then (s[i] as int + 32) as char else s[i])
  }

  /// The parts of a string joined back with the separator between them.
  function Join(parts: seq<string>, sep: char): string
    requires |parts| >= 1
  {
    if |parts| == 1 then parts[0] else parts[0] + [sep] + Join(parts[1..], sep)
  }

  /// `String.Split(char)`: the pieces between separators, empty ones included.
  function Split(s: string, sep: char): (parts: seq<string>)
    ensures |parts| >= 1
    ensures forall i | 0 <= i < |parts| :: sep !in parts[i]
    ensures Join(parts, sep) == s
  {
    if s == [] then [[]]
    else if s[0] == sep then [[]] + Split(s[1..], sep)
    else
      var rest := Split(s[1..], sep);
      assert Join(rest, sep) == s[1..];
      [[s[0]] + rest[0]] + rest[1..]
  }

  /// The private `TryParse`: an integer greater than 1.
  function TrySize(s: string): (r: Option<int32>)
    ensures r.Some? ==> r.value > 1 && TryParse(s) == Some(r.value)
    ensures r.None? ==> TryParse(s).None? || TryParse(s).value <= 1
  {
    match TryParse(s)
    case Some(v) => if v > 1 then Some(v) else None
    case None => None
  }

  /// `Parse`: lower-cases the text, splits it on `'x'` and reads the first two
  /// parts as sizes; parts after the second are ignored. A single part throws
  /// (an index out of range) once the first part has been read.
  function Parse(text: string): (r: Result<(int32, int32)>)
    ensures r.Ok? ==> r.value.0 > 1 && r.value.1 > 1
  {
    var parts := Split(ToLowerAscii(text), 'x');
    if TrySize(parts[0]).None? then Err("Grid size error - Gridsize must be greater than 1x1")
    else if |parts| < 2 then Err("Index was outside the bounds of the array.")
    else if TrySize(parts[1]).None? then Err("Grid size error - Gridsize must be greater than 1x1")
    else Ok((TrySize(parts[0]).value, TrySize(parts[1]).value))
  }

  lemma {:induction false} SplitAround(a: string, sep: char, b: string)
    requires sep !in a && sep !in b
    ensures Split(a + [sep] + b, sep) == [a, b]
    decreases |a|
  {
    if a == [] {
      assert (a + [sep] + b)[1..] == b;
      SplitNone(b, sep);
    } else {
      assert (a + [sep] + b)[1..] == a[1..] + [sep] + b;
      SplitAround(a[1..], sep, b);
      assert [a[0]] + a[1..] == a;
    }
  }

  lemma {:induction false} SplitNone(s: string, sep: char)
    requires sep !in s
    ensures Split(s, sep) == [s]
    decreases |s|
  {
    if s != [] {
      SplitNone(s[1..], sep);
      assert [s[0]] + s[1..] == s;
    }
  }

  lemma FormatChars(x: int)
    ensures forall i | 0 <= i < |Format(x)| :: Format(x)[i] == '-' || IsDigit(Format(x)[i])
  {
    var d := Digits(if x < 0 then -x else x);
    if x < 0 {
      assert forall i | 1 <= i < |Format(x)| :: Format(x)[i] == d[i - 1];
    }
  }

  lemma LowerSizeText(rows: int32, columns: int32)
    ensures ToLowerAscii(SizeText(rows, columns)) == SizeText(rows, columns)
  {
    var r, c := Format(rows as int), Format(columns as int);
    FormatChars(rows as int);
    FormatChars(columns as int);
    var s := SizeText(rows, columns);
    forall i | 0 <= i < |s| ensures !('A' <= s[i] <= 'Z') {
      if i < |r| {
        assert s[i] == r[i];
      } else if i >= |r| + 3 {
        assert s[i] == c[i - |r| - 3];
      }
    }
  }

  lemma SplitSizeText(rows: int32, columns: int32)
    ensures Split(ToLowerAscii(SizeText(rows, columns)), 'x') ==
            [Format(rows as int) + " ", " " + Format(columns as int)]
  {
    var r, c := Format(rows as int), Format(columns as int);
    FormatChars(rows as int);
    FormatChars(columns as int);
    LowerSizeText(rows, columns);
    assert SizeText(rows, columns) == (r + " ") + ['x'] + (" " + c);
    assert 'x' !in r + " " by {
      assert forall i | 0 <= i < |r + " "| :: (r + " ")[i] == if i < |r| then r[i] else ' ';
    }
    assert 'x' !in " " + c by {
      assert forall i | 0 <= i < |" " + c| :: (" " + c)[i] == if i == 0 then ' ' else c[i - 1];
    }
    SplitAround(r + " ", 'x', " " + c);
  }

  /// Parsing the text of a size gives the size back.
  lemma ParseSizeText(rows: int32, columns: int32)
    requires rows > 1 && columns > 1
    ensures Parse(SizeText(rows, columns)) == Ok((rows, columns))
  {
    var r, c := Format(rows as int), Format(columns as int);
    TrySizeLeft(rows);
    TrySizeRight(columns);
    SplitSizeText(rows, columns);
  }

  lemma TrySizeLeft(rows: int32)
    requires rows > 1
    ensures TrySize(Format(rows as int) + " ") == Some(rows)
  {
    var s := Format(rows as int) + " ";
    assert AllSpaces(" ") && AllSpaces([]);
    assert s == [] + Format(rows as int) + " ";
    FormatThenParse([], rows, " ");
    assert TryParse(s) == Some(rows);
  }

  lemma TrySizeRight(columns: int32)
    requires columns > 1
    ensures TrySize(" " + Format(columns as int)) == Some(columns)
  {
    var s := " " + Format(columns as int);
    assert AllSpaces(" ") && AllSpaces([]);
    assert s == " " + Format(columns as int) + [];
    FormatThenParse(" ", columns, []);
    assert TryParse(s) == Some(columns);
  }

  /// The text of a size larger than 1 x 1 is never 3 characters long.
  lemma SizeTextLength(rows: int32, columns: int32)
    requires rows > 1 && columns > 1
    ensures |SizeText(rows, columns)| >= 5
  {
  }
}
