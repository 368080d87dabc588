/**
 * `transformPuzzleGrid`: a random Sudoku symmetry applied to a grid string.
 * Bands and the rows inside each band are shuffled into a row permutation,
 * stacks and the columns inside each stack into a column permutation, and the
 * digits 1..9 are relabelled by a shuffled bijection; blanks stay blanks.
 */
module Transform {
  import opened Grid
  import opened Shuffle
  import opened ConflictEngine

  /** A permutation of 0..8 that sends the three rows of a band into one band. */
  predicate BandPerm(p: seq<int>) {
    && |p| == 9
    && (forall r :: 0 <= r < 9 ==> 0 <= p[r] < 9)
    && Distinct(p)
    && (forall r, s :: 0 <= r < 9 && 0 <= s < 9 && r / 3 == s / 3 ==> p[r] / 3 == p[s] / 3)
  }

  /** The shuffled digit string: a bijection from '1'..'9' (by position) onto '1'..'9'. */
  predicate DigitBijection(digits: string) {
    |digits| == 9 && (forall k :: 0 <= k < 9 ==> '1' <= digits[k] <= '9') && Distinct(digits)
  }

  /** The `digitMap` object: digit ch goes to the (ch - 1)-th shuffled digit. */
  function DigitMap(digits: string, ch: char): (out: char)
    requires |digits| == 9 && '1' <= ch <= '9'
    ensures out in digits
    ensures DigitBijection(digits) ==> '1' <= out <= '9'
  {
    digits[ch as int - '1' as int]
  }

  /** Output cell (r, c): the relabelled source cell (rowPerm[r], colPerm[c]). */
  function TransformedCell(g: string, rowPerm: seq<int>, colPerm: seq<int>, digits: string, r: int, c: int): char
    requires ValidGrid(g) && BandPerm(rowPerm) && BandPerm(colPerm) && DigitBijection(digits)
    requires InBounds(r, c)
  {
    var ch := g[RcToIdx(rowPerm[r], colPerm[c])];
    if ch == '.' then '.' else DigitMap(digits, ch)
  }

  /** The grid string `transformPuzzleGrid` builds from given permutations. */
  function Transformed(g: string, rowPerm: seq<int>, colPerm: seq<int>, digits: string): (out: string)
    requires ValidGrid(g) && BandPerm(rowPerm) && BandPerm(colPerm) && DigitBijection(digits)
    ensures |out| == CellCount
  {
    seq(CellCount, k requires 0 <= k < CellCount => TransformedCell(g, rowPerm, colPerm, digits, Row(k), Col(k)))
  }

  /**
   * The output is a well-formed grid, and its cell (r, c) is blank exactly
   * when source cell (rowPerm[r], colPerm[c]) is blank.
   */
  lemma TransformedShape(g: string, rowPerm: seq<int>, colPerm: seq<int>, digits: string)
    requires ValidGrid(g) && BandPerm(rowPerm) && BandPerm(colPerm) && DigitBijection(digits)
    ensures ValidGrid(Transformed(g, rowPerm, colPerm, digits))
    ensures forall r, c :: InBounds(r, c) ==>
      (Transformed(g, rowPerm, colPerm, digits)[RcToIdx(r, c)] == '.' <==> g[RcToIdx(rowPerm[r], colPerm[c])] == '.')
  {
    var out := Transformed(g, rowPerm, colPerm, digits);
    forall r, c | InBounds(r, c)
      ensures out[RcToIdx(r, c)] == '.' <==> g[RcToIdx(rowPerm[r], colPerm[c])] == '.'
    {
      RcIdxRoundTrip(0, r, c);
    }
  }

  /** The source cell that output cell k is copied from. */
  function SourceIdx(rowPerm: seq<int>, colPerm: seq<int>, k: int): (s: int)
    requires BandPerm(rowPerm) && BandPerm(colPerm) && 0 <= k < CellCount
    ensures 0 <= s < CellCount
  {
    RcToIdx(rowPerm[Row(k)], colPerm[Col(k)])
  }

  /** The cell map of the transform sends cells sharing a unit to distinct cells sharing a unit. */
  lemma SourceIdxKeepsUnits(rowPerm: seq<int>, colPerm: seq<int>, i: int, j: int)
    requires BandPerm(rowPerm) && BandPerm(colPerm)
    requires 0 <= i < CellCount && 0 <= j < CellCount && i != j && SharesUnit(i, j)
    ensures SourceIdx(rowPerm, colPerm, i) != SourceIdx(rowPerm, colPerm, j)
    ensures SharesUnit(SourceIdx(rowPerm, colPerm, i), SourceIdx(rowPerm, colPerm, j))
  {
    var si, sj := SourceIdx(rowPerm, colPerm, i), SourceIdx(rowPerm, colPerm, j);
    var ri, ci, rj, cj := Row(i), Col(i), Row(j), Col(j);
    RcIdxRoundTrip(i, rowPerm[ri], colPerm[ci]);
    RcIdxRoundTrip(j, rowPerm[rj], colPerm[cj]);
    assert Row(si) == rowPerm[ri] && Col(si) == colPerm[ci];
    assert Row(sj) == rowPerm[rj] && Col(sj) == colPerm[cj];
    assert si == sj ==> ri == rj && ci == cj;
    if Box(i) == Box(j) {
      assert ri / 3 == rj / 3 && ci / 3 == cj / 3;
      assert Box(si) == Box(sj);
    }
  }

  /**
   * Output cell k holds a digit exactly when its source cell does, and two
   * output cells holding the same digit come from source cells holding the
   * same digit: the relabelling is a bijection.
   */
  lemma SameDigitSameSource(g: string, rowPerm: seq<int>, colPerm: seq<int>, digits: string, i: int, j: int)
    requires ValidGrid(g) && BandPerm(rowPerm) && BandPerm(colPerm) && DigitBijection(digits)
    requires 0 <= i < CellCount && 0 <= j < CellCount
    requires ValidGrid(Transformed(g, rowPerm, colPerm, digits))
    ensures var vo := Cells(Transformed(g, rowPerm, colPerm, digits));
      var vg := Cells(g);
      var si, sj := SourceIdx(rowPerm, colPerm, i), SourceIdx(rowPerm, colPerm, j);
      (vo[i] == 0 <==> vg[si] == 0) && (vo[i] == vo[j] ==> vg[si] == vg[sj])
  {
    var out := Transformed(g, rowPerm, colPerm, digits);
    var si, sj := SourceIdx(rowPerm, colPerm, i), SourceIdx(rowPerm, colPerm, j);
    assert out[i] == TransformedCell(g, rowPerm, colPerm, digits, Row(i), Col(i));
    assert out[j] == TransformedCell(g, rowPerm, colPerm, digits, Row(j), Col(j));
    if out[i] == out[j] && out[i] != '.' {
      var a, b := g[si] as int - '1' as int, g[sj] as int - '1' as int;
      assert digits[a] == digits[b];
      assert g[si] == g[sj];
    }
  }

  /** A flagged output cell comes from a flagged source cell. */
  lemma FlaggedComesFromFlagged(g: string, rowPerm: seq<int>, colPerm: seq<int>, digits: string, i: int)
    requires ValidGrid(g) && BandPerm(rowPerm) && BandPerm(colPerm) && DigitBijection(digits)
    requires 0 <= i < CellCount
    requires ValidGrid(Transformed(g, rowPerm, colPerm, digits))
    requires Flagged(Cells(Transformed(g, rowPerm, colPerm, digits)), i)
    ensures Flagged(Cells(g), SourceIdx(rowPerm, colPerm, i))
  {
    var vo := Cells(Transformed(g, rowPerm, colPerm, digits));
    var j :| 0 <= j < CellCount && j != i && SharesUnit(i, j) && vo[j] == vo[i];
    SourceIdxKeepsUnits(rowPerm, colPerm, i, j);
    SameDigitSameSource(g, rowPerm, colPerm, digits, i, j);
  }

  /**
   * The transform creates no conflict: if the source grid repeats no given
   * digit within a row, column or box, neither does the output.
   */
  lemma TransformKeepsConflictFree(g: string, rowPerm: seq<int>, colPerm: seq<int>, digits: string)
    requires ValidGrid(g) && BandPerm(rowPerm) && BandPerm(colPerm) && DigitBijection(digits)
    ensures ValidGrid(Transformed(g, rowPerm, colPerm, digits))
    ensures HasConflict(Cells(Transformed(g, rowPerm, colPerm, digits))) ==> HasConflict(Cells(g))
  {
    TransformedShape(g, rowPerm, colPerm, digits);
    var out := Transformed(g, rowPerm, colPerm, digits);
    if HasConflict(Cells(out)) {
      var i :| 0 <= i < CellCount && Flagged(Cells(out), i);
      FlaggedComesFromFlagged(g, rowPerm, colPerm, digits, i);
    }
  }

  /** [0, 1, 2] has no repetitions. */
  lemma TripleDistinct()
    ensures Distinct([0, 1, 2])
  {
  }

  /**
   * The row (or column) permutation loop: for each shuffled band, shuffles the
   * three rows inside it and appends band * 3 + row.
   */
  method ExpandBands(bands: seq<int>, rand: nat -> nat, pos: nat) returns (perm: seq<int>, next: nat)
    requires multiset(bands) == multiset([0, 1, 2])
    ensures BandPerm(perm)
    ensures forall r :: 0 <= r < 9 ==> perm[r] / 3 == bands[r / 3]
    ensures next == pos + 6
  {
    TripleDistinct();
    PermutationKeepsDistinct(bands, [0, 1, 2]);
    assert |bands| == 3 by { assert |multiset(bands)| == 3; }
    forall b | 0 <= b < 3 ensures 0 <= bands[b] < 3 {
      PermutationKeepsElements(bands, [0, 1, 2], b);
    }
    perm := [];
    next := pos;
    for b := 0 to 3
      invariant |perm| == 3 * b && next == pos + 2 * b
      invariant forall r :: 0 <= r < |perm| ==> 0 <= perm[r] < 9 && perm[r] / 3 == bands[r / 3]
      invariant Distinct(perm)
    {
      var within;
      within, next := ShuffleCopy([0, 1, 2], rand, next);
      PermutationKeepsDistinct(within, [0, 1, 2]);
      forall w | 0 <= w < 3 ensures 0 <= within[w] < 3 {
        PermutationKeepsElements(within, [0, 1, 2], w);
      }
      for w := 0 to 3
        invariant |perm| == 3 * b + w
        invariant BandPrefix(perm, bands, b, within)
      {
        AppendRow(perm, bands, b, within, w);
        perm := perm + [bands[b] * 3 + within[w]];
      }
    }
  }

  /**
   * The permutation built so far: rows of bands 0..b-1 complete and some rows
   * of band b, each in the band `bands` assigns, without repetitions, the
   * rows of band b in the order `within` gives.
   */
  predicate BandPrefix(perm: seq<int>, bands: seq<int>, b: int, within: seq<int>)
    requires |bands| == 3 && 0 <= b < 3 && |within| == 3 && 3 * b <= |perm| <= 3 * b + 3
  {
    && (forall r :: 0 <= r < |perm| ==> 0 <= perm[r] < 9 && perm[r] / 3 == bands[r / 3])
    && (forall r :: 3 * b <= r < |perm| ==> perm[r] % 3 == within[r - 3 * b])
    && Distinct(perm)
  }

  /** Appending row `within[w]` of band `bands[b]` keeps the prefix well formed. */
  lemma AppendRow(perm: seq<int>, bands: seq<int>, b: int, within: seq<int>, w: int)
    requires |bands| == 3 && Distinct(bands) && forall k :: 0 <= k < 3 ==> 0 <= bands[k] < 3
    requires |within| == 3 && Distinct(within) && forall k :: 0 <= k < 3 ==> 0 <= within[k] < 3
    requires 0 <= b < 3 && 0 <= w < 3 && |perm| == 3 * b + w
    requires BandPrefix(perm, bands, b, within)
    ensures BandPrefix(perm + [bands[b] * 3 + within[w]], bands, b, within)
  {
    var x := bands[b] * 3 + within[w];
    RowPlacement(bands, b, within, w);
    NewRowFresh(perm, bands, b, within, w);
    AppendKeepsBands(perm, bands, x, b, w);
    AppendKeepsOrder(perm, within, x, b, w);
    AppendKeepsDistinct(perm, x);
  }

  lemma AppendKeepsBands(perm: seq<int>, bands: seq<int>, x: int, b: int, w: int)
    requires |bands| == 3 && 0 <= b < 3 && 0 <= w < 3 && |perm| == 3 * b + w
    requires forall r :: 0 <= r < |perm| ==> 0 <= perm[r] < 9 && perm[r] / 3 == bands[r / 3]
    requires 0 <= x < 9 && x / 3 == bands[b] && (3 * b + w) / 3 == b
    ensures forall r :: 0 <= r < |perm| + 1 ==> 0 <= (perm + [x])[r] < 9 && (perm + [x])[r] / 3 == bands[r / 3]
  {
    var p := perm + [x];
    forall r | 0 <= r < |p| ensures 0 <= p[r] < 9 && p[r] / 3 == bands[r / 3] {
      if r < |perm| { assert p[r] == perm[r]; } else { assert p[r] == x && r == 3 * b + w; }
    }
  }

  lemma AppendKeepsOrder(perm: seq<int>, within: seq<int>, x: int, b: int, w: int)
    requires |within| == 3 && 0 <= b < 3 && 0 <= w < 3 && |perm| == 3 * b + w
    requires forall r :: 3 * b <= r < |perm| ==> perm[r] % 3 == within[r - 3 * b]
    requires x % 3 == within[w]
    ensures forall r :: 3 * b <= r < |perm| + 1 ==> (perm + [x])[r] % 3 == within[r - 3 * b]
  {
    var p := perm + [x];
    forall r | 3 * b <= r < |p| ensures p[r] % 3 == within[r - 3 * b] {
      if r < |perm| { assert p[r] == perm[r]; } else { assert p[r] == x && r - 3 * b == w; }
    }
  }

  lemma AppendKeepsDistinct(perm: seq<int>, x: int)
    requires Distinct(perm) && x !in perm
    ensures Distinct(perm + [x])
  {
    var p := perm + [x];
    forall i, j | 0 <= i < j < |p| ensures p[i] != p[j] {
      if j < |perm| {
        assert p[i] == perm[i] && p[j] == perm[j];
      } else {
        assert p[i] == perm[i] && p[j] == x;
      }
    }
  }

  /** Where row `within[w]` of band `bands[b]` lands, and which band position it fills. */
  lemma RowPlacement(bands: seq<int>, b: int, within: seq<int>, w: int)
    requires |bands| == 3 && |within| == 3 && 0 <= b < 3 && 0 <= w < 3
    requires 0 <= bands[b] < 3 && 0 <= within[w] < 3
    ensures var x := bands[b] * 3 + within[w]; 0 <= x < 9 && x / 3 == bands[b] && x % 3 == within[w]
    ensures (3 * b + w) / 3 == b
  {
  }

  /** The appended row is not in the prefix yet. */
  lemma NewRowFresh(perm: seq<int>, bands: seq<int>, b: int, within: seq<int>, w: int)
    requires |bands| == 3 && Distinct(bands) && forall k :: 0 <= k < 3 ==> 0 <= bands[k] < 3
    requires |within| == 3 && Distinct(within) && forall k :: 0 <= k < 3 ==> 0 <= within[k] < 3
    requires 0 <= b < 3 && 0 <= w < 3 && |perm| == 3 * b + w
    requires BandPrefix(perm, bands, b, within)
    ensures bands[b] * 3 + within[w] !in perm
  {
    var x := bands[b] * 3 + within[w];
    RowPlacement(bands, b, within, w);
    forall r | 0 <= r < |perm| ensures perm[r] != x {
      if r < 3 * b {
        EarlierBand(r, b, bands);
        assert perm[r] / 3 != x / 3;
      } else {
        assert perm[r] % 3 == within[r - 3 * b] != within[w];
      }
    }
  }

  /** A row of an earlier band lies in a different band. */
  lemma EarlierBand(r: int, b: int, bands: seq<int>)
    requires |bands| == 3 && Distinct(bands) && 0 <= r < 3 * b && b < 3
    ensures 0 <= r / 3 < 3 && bands[r / 3] != bands[b]
  {
  }

  /** The digits '1'..'9' in order, the string the digit shuffle starts from. */
  const DigitChars: string := seq(9, k requires 0 <= k < 9 => ('1' as int + k) as char)

  /** Every character of a rearrangement of '1'..'9' is a digit, and none repeats. */
  lemma DigitCharsShuffled(digits: string)
    requires multiset(digits) == multiset(DigitChars)
    ensures DigitBijection(digits)
  {
    assert Distinct(DigitChars);
    PermutationKeepsDistinct(digits, DigitChars);
    assert |digits| == 9 by { assert |multiset(digits)| == |multiset(DigitChars)|; }
    forall k | 0 <= k < 9 ensures '1' <= digits[k] <= '9' {
      PermutationKeepsElements(digits, DigitChars, k);
    }
  }

  /**
   * `transformPuzzleGrid`. Draws, in the source's order: the band order, the
   * stack order, the rows inside each band, the columns inside each stack and
   * the digit shuffle. The permutations it built are returned as ghost results.
   */
  method TransformPuzzleGrid(grid: string, rand: nat -> nat, pos: nat)
    returns (out: string, next: nat, ghost rowPerm: seq<int>, ghost colPerm: seq<int>, ghost digits: string)
    requires ValidGrid(grid)
    ensures BandPerm(rowPerm) && BandPerm(colPerm) && DigitBijection(digits)
    ensures out == Transformed(grid, rowPerm, colPerm, digits)
    ensures ValidGrid(out)
    ensures !HasConflict(Cells(grid)) ==> !HasConflict(Cells(out))
    ensures next == pos + 24
  {
    var bands, stacks;
    bands, next := ShuffleCopy([0, 1, 2], rand, pos);
    stacks, next := ShuffleCopy([0, 1, 2], rand, next);
    var rp, cp;
    rp, next := ExpandBands(bands, rand, next);
    cp, next := ExpandBands(stacks, rand, next);
    var ds;
    ds, next := ShuffleDigits(rand, next);
    rowPerm, colPerm, digits := rp, cp, ds;
    out := Relabel(grid, rp, cp, ds);
    TransformKeepsConflictFree(grid, rp, cp, ds);
  }

  /** The digit shuffle and the `digitMap` it defines. */
  method ShuffleDigits(rand: nat -> nat, pos: nat) returns (digits: string, next: nat)
    ensures DigitBijection(digits)
    ensures next == pos + 8
  {
    digits, next := ShuffleCopy(DigitChars, rand, pos);
    DigitCharsShuffled(digits);
  }

  /** The output loop: row by row, cell by cell, a blank or the relabelled source digit. */
  method Relabel(grid: string, rp: seq<int>, cp: seq<int>, ds: string) returns (out: string)
    requires ValidGrid(grid) && BandPerm(rp) && BandPerm(cp) && DigitBijection(ds)
    ensures out == Transformed(grid, rp, cp, ds)
  {
    out := "";
    for r := 0 to 9
      invariant |out| == 9 * r
      invariant RelabelledPrefix(grid, rp, cp, ds, out)
    {
      for c := 0 to 9
        invariant |out| == 9 * r + c
        invariant RelabelledPrefix(grid, rp, cp, ds, out)
      {
        var srcR, srcC := rp[r], cp[c];
        var ch := grid[srcR * 9 + srcC];
        RelabelStep(grid, rp, cp, ds, out, r, c);
        out := out + [if ch == '.' then '.' else DigitMap(ds, ch)];
      }
    }
  }

  /** The first |out| cells of the output are written. */
  ghost predicate RelabelledPrefix(grid: string, rp: seq<int>, cp: seq<int>, ds: string, out: string)
    requires ValidGrid(grid) && BandPerm(rp) && BandPerm(cp) && DigitBijection(ds)
  {
    |out| <= CellCount &&
    forall k :: 0 <= k < |out| ==> out[k] == TransformedCell(grid, rp, cp, ds, Row(k), Col(k))
  }

  /** Writing cell (r, c) next extends the written prefix by one cell. */
  lemma RelabelStep(grid: string, rp: seq<int>, cp: seq<int>, ds: string, out: string, r: int, c: int)
    requires ValidGrid(grid) && BandPerm(rp) && BandPerm(cp) && DigitBijection(ds)
    requires InBounds(r, c) && |out| == 9 * r + c && RelabelledPrefix(grid, rp, cp, ds, out)
    ensures RelabelledPrefix(grid, rp, cp, ds, out + [TransformedCell(grid, rp, cp, ds, r, c)])
  {
    RcIdxRoundTrip(0, r, c);
    var o := out + [TransformedCell(grid, rp, cp, ds, r, c)];
    forall k | 0 <= k < |o| ensures o[k] == TransformedCell(grid, rp, cp, ds, Row(k), Col(k)) {
      if k < |out| { assert o[k] == out[k]; }
    }
  }
}
