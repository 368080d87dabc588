/**
 * Board geometry and the puzzle-string codec.
 *
 * A board has 81 cells in row-major order. A puzzle grid is an 81-character
 * string over '.' (blank) and '1'..'9' (a given digit); parsing it yields 81
 * cell values in 0..9, where 0 stands for a blank.
 */
module Grid {

  const BoardSize: int := 9
  const CellCount: int := 81

  /** The `{ r, c }` record that `idxToRC` returns. */
  datatype Cell = Cell(r: int, c: int)

  /** `inBounds`: (r, c) is a cell of the board, so `r * 9 + c` addresses one of the 81 cells. */
  predicate InBounds(r: int, c: int)
    ensures InBounds(r, c) ==> 0 <= r * 9 + c < CellCount
  {
    0 <= r < BoardSize && 0 <= c < BoardSize
  }

  /** Row and column of a cell index; the division theorem pins both down. */
  function IdxToRC(idx: int): (rc: Cell)
    requires 0 <= idx
    ensures rc.r * 9 + rc.c == idx && 0 <= rc.c < 9 && 0 <= rc.r
    ensures idx < CellCount <==> InBounds(rc.r, rc.c)
  {
    Cell(idx / 9, idx % 9)
  }

  function RcToIdx(r: int, c: int): (idx: int)
    ensures InBounds(r, c) ==> 0 <= idx < CellCount
  {
    r * 9 + c
  }

  /** Index 0..8 of the 3x3 box holding (r, c), boxes numbered row-major. */
  function BoxIndex(r: int, c: int): (b: int)
    ensures InBounds(r, c) ==> 0 <= b < 9 && b / 3 == r / 3 && b % 3 == c / 3
  {
    (r / 3) * 3 + c / 3
  }

  lemma RcIdxRoundTrip(idx: int, r: int, c: int)
    ensures 0 <= idx < CellCount ==> RcToIdx(IdxToRC(idx).r, IdxToRC(idx).c) == idx
    ensures InBounds(r, c) ==> IdxToRC(RcToIdx(r, c)) == Cell(r, c)
  {
  }

  /** Row, column and box of a cell index. */
  function Row(i: int): int requires 0 <= i { IdxToRC(i).r }
  function Col(i: int): int requires 0 <= i { IdxToRC(i).c }
  function Box(i: int): int requires 0 <= i { BoxIndex(Row(i), Col(i)) }

  /** Two cells share a unit when they lie in the same row, column or box. */
  predicate SharesUnit(i: int, j: int)
    requires 0 <= i && 0 <= j
  {
    Row(i) == Row(j) || Col(i) == Col(j) || Box(i) == Box(j)
  }

  // ---------------------------------------------------------------------
  // Codec

  datatype ParseError = BadLength | BadChar(at: int, ch: char)

  datatype Result<T> = Ok(value: T) | Err(error: ParseError)

  predicate IsGridChar(ch: char) {
    ch == '.' || '1' <= ch <= '9'
  }

  predicate ValidGrid(s: string) {
    |s| == CellCount && forall i :: 0 <= i < |s| ==> IsGridChar(s[i])
  }

  /** A sequence of 81 cell values, each blank (0) or a digit 1..9. */
  predicate ValidValues(v: seq<int>) {
    |v| == CellCount && forall i :: 0 <= i < |v| ==> 0 <= v[i] <= 9
  }

  /** '.' decodes to 0 and the digit k to k. */
  function CharValue(ch: char): (v: int)
    ensures IsGridChar(ch) ==> 0 <= v <= 9 && (v == 0 <==> ch == '.')
  {
    if ch == '.' then 0 else ch as int - '0' as int
  }

  /** The character a cell value is written as: 0 as '.', k as the digit k. */
  function ValueChar(v: int): (ch: char)
    requires 0 <= v <= 9
    ensures IsGridChar(ch) && CharValue(ch) == v
  {
    if v == 0 then '.' else (v + '0' as int) as char
  }

  /** Index of the first character at or after `from` that is not a grid character, or |s|. */
  function FirstBad(s: string, from: nat): (k: int)
    requires from <= |s|
    ensures from <= k <= |s|
    ensures k < |s| ==> !IsGridChar(s[k])
    ensures forall j :: from <= j < k ==> IsGridChar(s[j])
    decreases |s| - from
  {
    if from == |s| then |s|
    else if !IsGridChar(s[from]) then from
    else FirstBad(s, from + 1)
  }

  /** What `parsePuzzleGrid` returns or throws. */
  function ParseGrid(s: string): (r: Result<seq<int>>)
    ensures r.Ok? <==> ValidGrid(s)
    ensures r == Err(BadLength) <==> |s| != CellCount
    ensures r.Ok? ==> ValidValues(r.value) && forall i :: 0 <= i < CellCount ==> r.value[i] == CharValue(s[i])
    ensures r.Err? && r.error.BadChar? ==>
      var k := r.error.at;
      |s| == CellCount && 0 <= k < CellCount && s[k] == r.error.ch && !IsGridChar(s[k]) &&
      forall j :: 0 <= j < k ==> IsGridChar(s[j])
  {
    if |s| != CellCount then Err(BadLength)
    else
      var k := FirstBad(s, 0);
      if k < |s| then Err(BadChar(k, s[k]))
      else Ok(seq(CellCount, i requires 0 <= i < CellCount => CharValue(s[i])))
  }

  /** The cell values of a well-formed grid string. */
  function Cells(s: string): (v: seq<int>)
    requires ValidGrid(s)
    ensures ValidValues(v)
  {
    ParseGrid(s).value
  }

  /** Writes cell values back out as a grid string. */
  function Serialize(v: seq<int>): (s: string)
    requires forall i :: 0 <= i < |v| ==> 0 <= v[i] <= 9
    ensures |s| == |v|
  {
    seq(|v|, i requires 0 <= i < |v| => ValueChar(v[i]))
  }

  /** Writing the parsed digits back out reproduces a well-formed grid string. */
  lemma ParseThenSerialize(s: string)
    requires ValidGrid(s)
    ensures Serialize(Cells(s)) == s
  {
    var t := Serialize(Cells(s));
    forall i | 0 <= i < |s| ensures t[i] == s[i] {
      var ch := s[i];
      if ch != '.' {
        assert ValueChar(CharValue(ch)) == ((ch as int - '0' as int) + '0' as int) as char;
      }
    }
  }

  /** Serializing 81 cell values yields a grid string that parses back to them. */
  lemma SerializeThenParse(v: seq<int>)
    requires ValidValues(v)
    ensures ValidGrid(Serialize(v)) && ParseGrid(Serialize(v)) == Ok(v)
  {
    var s := Serialize(v);
    assert ParseGrid(s).value == v;
  }

  /**
   * `parsePuzzleGrid`: fills a fresh 81-cell buffer from the string, stopping
   * at the first character that is neither '.' nor a digit 1..9.
   */
  method ParsePuzzleGrid(s: string) returns (r: Result<seq<int>>)
    ensures r == ParseGrid(s)
  {
    if |s| != CellCount {
      return Err(BadLength);
    }
    var g := new int[CellCount];
    for i := 0 to CellCount
      invariant forall j :: 0 <= j < i ==> IsGridChar(s[j]) && g[j] == CharValue(s[j])
    {
      var ch := s[i];
      if ch == '.' {
        g[i] := 0;
      } else if '1' <= ch <= '9' {
        g[i] := ch as int - 48;
      } else {
        assert FirstBad(s, 0) == i by { FirstBadIs(s, 0, i); }
        return Err(BadChar(i, ch));
      }
    }
    assert FirstBad(s, 0) == |s| by { FirstBadIs(s, 0, |s|); }
    assert g[..] == ParseGrid(s).value;
    r := Ok(g[..]);
  }

  /** FirstBad finds exactly the first offending position. */
  lemma {:induction false} FirstBadIs(s: string, from: nat, k: int)
    requires from <= k <= |s|
    requires forall j :: from <= j < k ==> IsGridChar(s[j])
    requires k < |s| ==> !IsGridChar(s[k])
    ensures FirstBad(s, from) == k
    decreases k - from
  {
    if from < k {
      FirstBadIs(s, from + 1, k);
    }
  }
}
