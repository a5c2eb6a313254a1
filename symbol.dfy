/// The symbol table: slot 0 holds the glyph of the empty cell, slot i the glyph
/// shown for code i. The C# static array becomes the field of `SymbolTable`;
/// the read-only lookups take the table as a value.
module Symbols {
  import opened Wrappers

  /// The glyphs a table built from a puzzle size draws from, in order:
  /// `'1'` to `'9'`, then `'A'` to `'Z'`.
  const Full: string :=
    seq(9, i requires 0 <= i < 9 => ('1' as int + i) as char) +
    seq(26, i requires 0 <= i < 26 => ('A' as int + i) as char)

  /// Slot 0 of every table: the empty cell.
  const Blank: char := ' '

  /// The value of a slot of a freshly allocated `char` array.
  const Unset: char := '\0'

  predicate Distinct(s: string)
  {
    forall i, j | 0 <= i < j < |s| :: s[i] != s[j]
  }

  /// A table as a successful setter leaves it.
  predicate ValidTable(t: string)
  {
    |t| >= 1 && t[0] == Blank && '0' !in t && Distinct(t)
  }

  /// The glyph a character is looked up as: `'0'` stands for the empty cell.
  function Canonical(ch: char): char
  {
    if ch == '0' then Blank else ch
  }

  /// The first slot holding `ch`.
  function IndexOf(t: string, ch: char): (k: nat)
    requires ch in t
    ensures k < |t| && t[k] == ch && ch !in t[..k]
  {
    if t[0] == ch then 0 else 1 + IndexOf(t[1..], ch)
  }

  /// The table `SetSymbols(glyphs)` has built when it has placed `k` glyphs:
  /// the slots after them still hold `Unset`.
  function PartialTable(glyphs: string, k: nat): (t: string)
    requires k <= |glyphs|
    ensures |t| == |glyphs| + 1
  {
    [Blank] + glyphs[..k] + seq(|glyphs| - k, _ => Unset)
  }

  /// A glyph the duplicate check of `SetSymbols(glyphs)` refuses: one already
  /// in the partly built table, where the unfilled slots hold `Unset`.
  predicate Rejected(glyphs: string, i: nat)
    requires i < |glyphs|
  {
    glyphs[i] == Unset || glyphs[i] in glyphs[..i]
  }

  /// The index of the first refused glyph at or after `from`, `|glyphs|` if none.
  function FirstRejected(glyphs: string, from: nat): (k: nat)
    requires from <= |glyphs|
    ensures from <= k <= |glyphs|
    ensures k < |glyphs| ==> Rejected(glyphs, k)
    decreases |glyphs| - from
  {
    if from == |glyphs| then |glyphs|
    else if Rejected(glyphs, from) then from
    else FirstRejected(glyphs, from + 1)
  }

  /// Writing the next glyph over the first unset slot of a partly built table.
  lemma FillSlot(placed: string, rest: nat, ch: char)
    requires rest > 0
    ensures ([Blank] + placed + seq(rest, _ => Unset))[|placed| + 1 := ch] ==
            [Blank] + (placed + [ch]) + seq(rest - 1, _ => Unset)
  {
  }

  class SymbolTable {
    /// The active table (`m_CURRENTSYMBOLS`); empty before the first setter runs.
    var table: string

    constructor ()
      ensures table == []
    {
      table := [];
    }

    /// `SetSymbols(int)`: a table for a puzzle of `size` codes taken from `Full`.
    /// A negative size, or one beyond `Full`, throws; in the second case the
    /// table has already been replaced.
    method SetSymbolsBySize(size: int) returns (o: Outcome)
      modifies this
      ensures size < -1 ==> o.Fail? && table == old(table)
      ensures size == -1 ==> o.Fail? && table == []
      ensures 0 <= size <= |Full| ==> o == Pass && table == [Blank] + Full[..size]
      ensures size > |Full| ==> o.Fail? && table == [Blank] + Full + seq(size - |Full|, _ => Unset)
    {
      if size + 1 < 0 {
        return Fail("Arithmetic operation resulted in an overflow.");
      }
      table := seq(size + 1, _ => Unset);
      if size + 1 == 0 {
        return Fail("Index was outside the bounds of the array.");
      }
      table := table[0 := Blank];
      var i := 0;
      while i < size && i < |Full|
        invariant 0 <= i <= size && i <= |Full|
        invariant table == [Blank] + Full[..i] + seq(size - i, _ => Unset)
      {
        FillSlot(Full[..i], size - i, Full[i]);
        table := table[i + 1 := Full[i]];
        assert Full[..i + 1] == Full[..i] + [Full[i]];
        i := i + 1;
      }
      if i < size {
        assert Full[..i] == Full;
        return Fail("Index was outside the bounds of the array.");
      }
      o := Pass;
    }

    /// `SetSymbols(char[])`: a table from the glyphs of a file. A `'0'` or a
    /// space throws before the table is touched; a repeated glyph throws after
    /// the table has been replaced by the partly filled one.
    method SetSymbolsFrom(glyphs: string) returns (o: Outcome)
      modifies this
      ensures ('0' in glyphs || Blank in glyphs) ==> o.Fail? && table == old(table)
      ensures !('0' in glyphs || Blank in glyphs) ==>
                table == PartialTable(glyphs, FirstRejected(glyphs, 0)) &&
                (o == Pass <==> FirstRejected(glyphs, 0) == |glyphs|)
      ensures o == Pass ==> table == [Blank] + glyphs
    {
      if '0' in glyphs || Blank in glyphs {
        return Fail("Symbol set error - Symbol set cannot contain 0 or a space");
      }
      table := [Blank] + seq(|glyphs|, _ => Unset);
      var i := 0;
      while i < |glyphs|
        invariant 0 <= i <= |glyphs|
        invariant table == PartialTable(glyphs, i)
        invariant FirstRejected(glyphs, 0) == FirstRejected(glyphs, i)
      {
        assert table[|table| - 1] == Unset;
        assert glyphs[i] in table <==> Rejected(glyphs, i) by {
          assert table == [Blank] + glyphs[..i] + seq(|glyphs| - i, _ => Unset);
        }
        if glyphs[i] !in table {
          table := table[i + 1 := glyphs[i]];
          assert glyphs[..i + 1] == glyphs[..i] + [glyphs[i]];
          i := i + 1;
        } else {
          return Fail("Symbol set error - All symbols in the symbol set must be unique");
        }
      }
      assert glyphs[..|glyphs|] == glyphs;
      o := Pass;
    }
  }

  /// `ConvertCharToInt`: the first slot holding the character (`'0'` read as
  /// the empty cell); an error when no slot holds it.
  method ConvertCharToInt(t: string, ch: char) returns (r: Result<nat>)
    ensures Canonical(ch) in t ==> r == Ok(IndexOf(t, Canonical(ch)))
    ensures Canonical(ch) !in t ==> r.Err?
  {
    var c := if ch == '0' then Blank else ch;
    var i := 0;
    while i < |t|
      invariant 0 <= i <= |t|
      invariant c !in t[..i]
    {
      if c == t[i] {
        assert IndexOf(t, c) == i by {
          assert t[..i + 1] == t[..i] + [t[i]];
        }
        return Ok(i);
      }
      assert t[..i + 1] == t[..i] + [t[i]];
      i := i + 1;
    }
    assert t[..|t|] == t;
    r := Err("Symbol set error - Symbol does not exist in the symbol set");
  }

  /// The glyphs of a list of codes.
  function Glyphs(t: string, codes: seq<int>): (g: string)
    requires forall i | 0 <= i < |codes| :: 0 <= codes[i] < |t|
    ensures |g| == |codes| && forall i | 0 <= i < |codes| :: g[i] == t[codes[i]]
  {
    seq(|codes|, i requires 0 <= i < |codes| => t[codes[i]])
  }

  /// The codes of a list of glyphs.
  function Codes(t: string, glyphs: string): (c: seq<int>)
    requires forall i | 0 <= i < |glyphs| :: Canonical(glyphs[i]) in t
    ensures |c| == |glyphs|
    ensures forall i | 0 <= i < |glyphs| :: 0 <= c[i] < |t| && t[c[i]] == Canonical(glyphs[i])
  {
    seq(|glyphs|, i requires 0 <= i < |glyphs| => IndexOf(t, Canonical(glyphs[i])))
  }

  /// `IntToCharList`: the glyph of every code; an out-of-range code throws.
  method IntToCharList(t: string, codes: seq<int>) returns (r: Result<string>)
    ensures r.Ok? <==> forall i | 0 <= i < |codes| :: 0 <= codes[i] < |t|
    ensures r.Ok? ==> r.value == Glyphs(t, codes)
  {
    var out: string := [];
    var i := 0;
    while i < |codes|
      invariant 0 <= i <= |codes|
      invariant forall j | 0 <= j < i :: 0 <= codes[j] < |t|
      invariant out == Glyphs(t, codes[..i])
    {
      if !(0 <= codes[i] < |t|) {
        return Err("Index was outside the bounds of the array.");
      }
      out := out + [t[codes[i]]];
      i := i + 1;
    }
    assert codes[..|codes|] == codes;
    r := Ok(out);
  }

  /// `CharToIntList`: the code of every glyph; an unknown glyph throws.
  method CharToIntList(t: string, glyphs: string) returns (r: Result<seq<int>>)
    ensures r.Ok? <==> forall i | 0 <= i < |glyphs| :: Canonical(glyphs[i]) in t
    ensures r.Ok? ==> r.value == Codes(t, glyphs)
  {
    var out: seq<int> := [];
    var i := 0;
    while i < |glyphs|
      invariant 0 <= i <= |glyphs|
      invariant forall j | 0 <= j < i :: Canonical(glyphs[j]) in t
      invariant out == Codes(t, glyphs[..i])
    {
      var code := ConvertCharToInt(t, glyphs[i]);
      if code.Err? {
        return Err(code.error);
      }
      out := out + [code.value];
      i := i + 1;
    }
    assert glyphs[..|glyphs|] == glyphs;
    r := Ok(out);
  }

  /// `currentSymbolsIntList`: a fresh list of every code of the table.
  method CurrentSymbolsIntList(t: string) returns (r: seq<int>)
    ensures |r| == |t| && forall i | 0 <= i < |t| :: r[i] == i
  {
    r := [];
    var i := 0;
    while i < |t|
      invariant 0 <= i <= |t|
      invariant |r| == i && forall j | 0 <= j < i :: r[j] == j
    {
      r := r + [i];
      i := i + 1;
    }
  }

  /// Scanning from `from`, a glyph is accepted exactly when it is neither
  /// `Unset` nor an earlier glyph.
  lemma {:induction false} FirstRejectedNone(glyphs: string, from: nat)
    requires from <= |glyphs|
    ensures FirstRejected(glyphs, from) == |glyphs| <==>
            forall i | from <= i < |glyphs| :: !Rejected(glyphs, i)
    decreases |glyphs| - from
  {
    if from < |glyphs| {
      FirstRejectedNone(glyphs, from + 1);
    }
  }

  /// `SetSymbols(glyphs)` succeeds exactly on glyphs that are pairwise distinct,
  /// free of `'0'`, the space and `Unset`.
  lemma SetSymbolsFromSucceeds(glyphs: string)
    requires '0' !in glyphs && Blank !in glyphs
    ensures FirstRejected(glyphs, 0) == |glyphs| <==> Unset !in glyphs && Distinct(glyphs)
  {
    FirstRejectedNone(glyphs, 0);
    if FirstRejected(glyphs, 0) == |glyphs| {
      forall i, j | 0 <= i < j < |glyphs| ensures glyphs[i] != glyphs[j] {
        assert !Rejected(glyphs, j);
        assert glyphs[i] == glyphs[..j][i];
      }
      forall k | 0 <= k < |glyphs| ensures glyphs[k] != Unset {
        assert !Rejected(glyphs, k);
      }
    }
    if Unset !in glyphs && Distinct(glyphs) {
      forall i | 0 <= i < |glyphs| ensures !Rejected(glyphs, i) {
        forall j | 0 <= j < i ensures glyphs[..i][j] != glyphs[i] {
          assert glyphs[..i][j] == glyphs[j];
        }
      }
    }
  }

  lemma FullIncreasing()
    ensures forall i, j | 0 <= i < j < |Full| :: Full[i] < Full[j]
  {
    assert forall i | 0 <= i < |Full| - 1 :: Full[i] < Full[i + 1];
    forall i, j | 0 <= i < j < |Full| ensures Full[i] < Full[j] {
      var k := i;
      while k < j
        invariant i <= k <= j && Full[i] <= Full[k]
        invariant k > i ==> Full[i] < Full[k]
      {
        k := k + 1;
      }
    }
  }

  /// Both setters leave a valid table when they succeed.
  lemma SetTablesValid(size: nat, glyphs: string)
    requires size <= |Full|
    requires '0' !in glyphs && Blank !in glyphs && FirstRejected(glyphs, 0) == |glyphs|
    ensures ValidTable([Blank] + Full[..size])
    ensures ValidTable([Blank] + glyphs)
  {
    DefaultTableValid(size);
    SetSymbolsFromSucceeds(glyphs);
    GlyphTableValid(glyphs);
  }

  lemma GlyphTableValid(glyphs: string)
    requires '0' !in glyphs && Blank !in glyphs && Distinct(glyphs)
    ensures ValidTable([Blank] + glyphs)
  {
    var t := [Blank] + glyphs;
    forall i, j | 0 <= i < j < |t| ensures t[i] != t[j] {
      assert t[j] == glyphs[j - 1];
      if i > 0 {
        assert t[i] == glyphs[i - 1];
      } else {
        assert t[j] in glyphs;
      }
    }
    assert '0' !in t by {
      assert forall k | 1 <= k < |t| :: t[k] == glyphs[k - 1];
    }
  }

  lemma DefaultTableValid(size: nat)
    requires size <= |Full|
    ensures ValidTable([Blank] + Full[..size])
  {
    var p := Full[..size];
    assert forall i, j | 0 <= i < j < |p| :: p[i] < p[j] by {
      FullIncreasing();
    }
    assert Full[0] == '1';
    assert |p| > 0 ==> p[0] == Full[0];
    IncreasingTableValid(p);
  }

  /// Glyphs in strictly increasing order, all above `'0'`, make a valid table.
  lemma IncreasingTableValid(glyphs: string)
    requires forall i, j | 0 <= i < j < |glyphs| :: glyphs[i] < glyphs[j]
    requires |glyphs| > 0 ==> glyphs[0] > '0'
    ensures ValidTable([Blank] + glyphs)
  {
    forall i | 0 <= i < |glyphs| ensures glyphs[i] > '0' {
      if i > 0 {
        assert glyphs[0] < glyphs[i];
      }
    }
    GlyphTableValid(glyphs);
  }

  /// On a valid table, looking up the glyph of a code gives the code back.
  lemma CodeRoundTrip(t: string, i: nat)
    requires ValidTable(t) && i < |t|
    ensures Canonical(t[i]) == t[i]
    ensures IndexOf(t, Canonical(t[i])) == i
  {
  }

  /// The list converters undo each other, element by element, on a valid table.
  lemma ListsRoundTrip(t: string, codes: seq<int>, glyphs: string)
    requires ValidTable(t)
    requires forall i | 0 <= i < |codes| :: 0 <= codes[i] < |t|
    requires forall i | 0 <= i < |glyphs| :: Canonical(glyphs[i]) in t
    ensures Codes(t, Glyphs(t, codes)) == codes
    ensures Glyphs(t, Codes(t, glyphs)) == seq(|glyphs|, i requires 0 <= i < |glyphs| => Canonical(glyphs[i]))
  {
    var g := Glyphs(t, codes);
    forall i | 0 <= i < |g| ensures Canonical(g[i]) in t {
      CodeRoundTrip(t, codes[i]);
    }
    forall i | 0 <= i < |codes| ensures Codes(t, g)[i] == codes[i] {
      CodeRoundTrip(t, codes[i]);
    }
  }
}
