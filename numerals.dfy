/// The two pieces of .NET number handling the library relies on: `int.TryParse`
/// with the default `NumberStyles.Integer` (white space around an optional sign
/// and ASCII digits, the value within 32 bits) and `int.ToString()`.
module Numerals {
  import opened Wrappers

  newtype int32 = x: int | -0x8000_0000 <= x < 0x8000_0000

  predicate IsDigit(ch: char) { '0' <= ch <= '9' }

  /// The white space `NumberStyles.Integer` accepts: U+0009 to U+000D and U+0020.
  predicate IsSpace(ch: char) { ch == ' ' || '\t' <= ch <= '\r' }

  predicate AllDigits(s: string) { forall i | 0 <= i < |s| :: IsDigit(s[i]) }

  predicate AllSpaces(s: string) { forall i | 0 <= i < |s| :: IsSpace(s[i]) }

  function DigitValue(ch: char): nat
    requires IsDigit(ch)
  {
    ch as int - '0' as int
  }

  function DigitChar(d: nat): (ch: char)
    requires d < 10
    ensures IsDigit(ch) && DigitValue(ch) == d
  {
    ('0' as int + d) as char
  }

  /// The value of a run of decimal digits, most significant first.
  function ValueOf(ds: string): nat
    requires AllDigits(ds)
  {
    if ds == [] then 0 else 10 * ValueOf(ds[..|ds| - 1]) + DigitValue(ds[|ds| - 1])
  }

  /// The shortest decimal spelling of a natural number.
  function Digits(x: nat): (s: string)
    ensures |s| >= 1 && AllDigits(s)
    ensures x >= 10 ==> s[0] != '0'
  {
    if x < 10 then [DigitChar(x)] else Digits(x / 10) + [DigitChar(x % 10)]
  }

  /// `int.ToString()` under the invariant culture.
  function Format(x: int): string
  {
    if x < 0 then "-" + Digits(-x) else Digits(x)
  }

  function TrimStart(s: string): (t: string)
    ensures |t| <= |s| && t == s[|s| - |t|..]
    ensures t == [] || !IsSpace(t[0])
  {
    if s != [] && IsSpace(s[0]) then TrimStart(s[1..]) else s
  }

  function TrimEnd(s: string): (t: string)
    ensures |t| <= |s| && t == s[..|t|]
    ensures t == [] || !IsSpace(t[|t| - 1])
  {
    if s != [] && IsSpace(s[|s| - 1]) then TrimEnd(s[..|s| - 1]) else s
  }

  /// `int.TryParse(s, out v)`: `Some(v)` when it returns true.
  function TryParse(s: string): Option<int32>
  {
    ParseTrimmed(TrimEnd(TrimStart(s)))
  }

  /// An optional sign followed by one or more digits, within 32 bits.
  function ParseTrimmed(t: string): Option<int32>
  {
    var signed := |t| > 0 && (t[0] == '-' || t[0] == '+');
    var body := if signed then t[1..] else t;
    if body == [] || !AllDigits(body) then None
    else
      var v: int := if signed && t[0] == '-' then -(ValueOf(body) as int) else ValueOf(body);
      if -0x8000_0000 <= v < 0x8000_0000 then Some(v as int32) else None
  }

  lemma {:induction false} ValueOfDigits(x: nat)
    ensures ValueOf(Digits(x)) == x
  {
    if x >= 10 {
      var s := Digits(x);
      assert s[..|s| - 1] == Digits(x / 10);
      ValueOfDigits(x / 10);
    }
  }

  lemma TrimStartSpaces(ws: string, t: string)
    requires AllSpaces(ws) && t != [] && !IsSpace(t[0])
    ensures TrimStart(ws + t) == t
  {
    if ws != [] {
      assert (ws + t)[1..] == ws[1..] + t;
      TrimStartSpaces(ws[1..], t);
    }
  }

  lemma TrimEndSpaces(t: string, ws: string)
    requires AllSpaces(ws) && t != [] && !IsSpace(t[|t| - 1])
    ensures TrimEnd(t + ws) == t
  {
    if ws != [] {
      assert (t + ws)[..|t + ws| - 1] == t + ws[..|ws| - 1];
      TrimEndSpaces(t, ws[..|ws| - 1]);
    }
  }

  /// Formatting a 32-bit integer and parsing the trimmed text gives the
  /// integer back.
  lemma FormatParsesBack(x: int32)
    ensures ParseTrimmed(Format(x as int)) == Some(x)
  {
    var m: nat := if x < 0 then -(x as int) else x as int;
    ValueOfDigits(m);
    if x < 0 {
      assert Format(x as int)[1..] == Digits(m);
    }
  }

  /// Formatting a 32-bit integer and parsing it back, with any white space
  /// around it, gives the integer back.
  lemma FormatThenParse(lead: string, x: int32, trail: string)
    requires AllSpaces(lead) && AllSpaces(trail)
    ensures TryParse(lead + Format(x as int) + trail) == Some(x)
  {
    var f := Format(x as int);
    assert f[|f| - 1] == Digits(if x < 0 then -(x as int) else x as int)[|Digits(if x < 0 then -(x as int) else x as int)| - 1];
    assert lead + f + trail == lead + (f + trail);
    TrimStartSpaces(lead, f + trail);
    TrimEndSpaces(f, trail);
    FormatParsesBack(x);
  }

  /// A non-negative number formats to text that parses back to it.
  lemma ParsesBack(v: int)
    requires 0 <= v < 0x8000_0000
    ensures TryParse(Format(v)) == Some(v as int32)
  {
    assert AllSpaces([]);
    FormatThenParse([], v as int32, []);
    assert [] + Format(v) + [] == Format(v);
  }
}
