/**
 * The conflict engine: which cells repeat a digit within one of the 27 units
 * (9 rows, 9 columns, 9 boxes), whether a board is solved, and whether a
 * puzzle grid string already contradicts itself.
 */
module ConflictEngine {
  import opened Grid
  import opened Shuffle

  // ---------------------------------------------------------------------
  // Specification

  /** A cell is flagged when it holds a digit that another cell of one of its units also holds. */
  ghost predicate Flagged(vals: seq<int>, i: int)
    requires |vals| == CellCount && 0 <= i < CellCount
  {
    vals[i] != 0 &&
    exists j :: 0 <= j < CellCount && j != i && SharesUnit(i, j) && vals[j] == vals[i]
  }

  /** Some cell is flagged. */
  ghost predicate HasConflict(vals: seq<int>)
    requires |vals| == CellCount
  {
    exists i :: 0 <= i < CellCount && Flagged(vals, i)
  }

  /** Cell i holds a digit that another cell listed in `cells` also holds. */
  ghost predicate DupAmong(vals: seq<int>, cells: seq<int>, i: int)
    requires |vals| == CellCount && 0 <= i < CellCount
    requires forall q :: 0 <= q < |cells| ==> 0 <= cells[q] < CellCount
  {
    vals[i] != 0 && i in cells &&
    exists q :: 0 <= q < |cells| && cells[q] != i && vals[cells[q]] == vals[i]
  }

  /** Two positions of `cells` hold the same digit. */
  ghost predicate RepeatsIn(vals: seq<int>, cells: seq<int>)
    requires |vals| == CellCount
    requires forall q :: 0 <= q < |cells| ==> 0 <= cells[q] < CellCount
  {
    exists p, q :: 0 <= p < q < |cells| && vals[cells[p]] != 0 && vals[cells[p]] == vals[cells[q]]
  }

  // ---------------------------------------------------------------------
  // The 27 units

  /** Unit u: rows for 0..8, columns for 9..17, boxes for 18..26. */
  predicate InUnit(u: int, i: int)
    requires 0 <= i
  {
    if u < 9 then Row(i) == u
    else if u < 18 then Col(i) == u - 9
    else Box(i) == u - 18
  }

  /** Row and column of the k-th cell (k in 0..8) that the source visits in unit u. */
  function UnitRC(u: int, k: int): (rc: Cell)
    requires 0 <= u < 27 && 0 <= k < 9
    ensures InBounds(rc.r, rc.c)
  {
    if u < 9 then Cell(u, k)
    else if u < 18 then Cell(k, u - 9)
    else
      var b := u - 18;
      Cell((b / 3) * 3 + k / 3, (b % 3) * 3 + k % 3)
  }

  /** The k-th cell of unit u lies in unit u. */
  lemma UnitRCInUnit(u: int, k: int)
    requires 0 <= u < 27 && 0 <= k < 9
    ensures var rc := UnitRC(u, k); InUnit(u, RcToIdx(rc.r, rc.c))
  {
    var rc := UnitRC(u, k);
    RcIdxRoundTrip(0, rc.r, rc.c);
    if u >= 18 {
      var b := u - 18;
      assert rc.r / 3 == b / 3 && rc.c / 3 == b % 3;
    }
  }

  /**
   * The cells of unit u in the order the source visits them: a row left to
   * right, a column top to bottom, a box row by row.
   */
  function UnitCells(u: int): (cells: seq<int>)
    requires 0 <= u < 27
    ensures |cells| == 9
    ensures forall q :: 0 <= q < 9 ==> 0 <= cells[q] < CellCount && InUnit(u, cells[q])
  {
    var cells := seq(9, k requires 0 <= k < 9 => RcToIdx(UnitRC(u, k).r, UnitRC(u, k).c));
    assert forall q :: 0 <= q < 9 ==> InUnit(u, cells[q]) by {
      forall q | 0 <= q < 9 ensures InUnit(u, cells[q]) { UnitRCInUnit(u, q); }
    }
    cells
  }

  /** Different positions of a unit are different cells. */
  lemma UnitRCInjective(u: int, p: int, q: int)
    requires 0 <= u < 27 && 0 <= p < q < 9
    ensures UnitRC(u, p) != UnitRC(u, q)
  {
    if u >= 18 {
      BoxOffset(u - 18, p);
      BoxOffset(u - 18, q);
    }
  }

  /** Within box b, the k-th visited cell sits at offset k from the box's corner. */
  lemma BoxOffset(b: int, k: int)
    requires 0 <= b < 9 && 0 <= k < 9
    ensures var rc := UnitRC(18 + b, k); (rc.r % 3) * 3 + rc.c % 3 == k
  {
    var rc := UnitRC(18 + b, k);
    assert rc.r == (b / 3) * 3 + k / 3 && rc.c == (b % 3) * 3 + k % 3;
    assert rc.r % 3 == k / 3 && rc.c % 3 == k % 3;
  }

  /** Every cell of unit u is visited at some position. */
  lemma UnitRCCovers(u: int, i: int) returns (k: int)
    requires 0 <= u < 27 && 0 <= i < CellCount && InUnit(u, i)
    ensures 0 <= k < 9 && UnitRC(u, k) == IdxToRC(i)
  {
    var r, c := Row(i), Col(i);
    k := if u < 9 then c else if u < 18 then r else (r % 3) * 3 + c % 3;
    if u >= 18 {
      assert k / 3 == r % 3 && k % 3 == c % 3;
      assert r / 3 == (u - 18) / 3 && c / 3 == (u - 18) % 3;
    }
  }

  /** A unit lists each of its cells exactly once. */
  lemma UnitCellsExact(u: int)
    requires 0 <= u < 27
    ensures Distinct(UnitCells(u))
    ensures forall i :: 0 <= i < CellCount && InUnit(u, i) ==> i in UnitCells(u)
  {
    var cells := UnitCells(u);
    forall p, q | 0 <= p < q < 9 ensures cells[p] != cells[q] {
      var a, b := UnitRC(u, p), UnitRC(u, q);
      UnitRCInjective(u, p, q);
      RcIdxRoundTrip(0, a.r, a.c);
      RcIdxRoundTrip(0, b.r, b.c);
    }
    forall i | 0 <= i < CellCount && InUnit(u, i) ensures i in cells {
      var k := UnitRCCovers(u, i);
      RcIdxRoundTrip(i, 0, 0);
      assert cells[k] == i;
    }
  }

  /** Cells share a unit exactly when some one of the 27 units holds both. */
  lemma SharesUnitIffCommonUnit(i: int, j: int)
    requires 0 <= i < CellCount && 0 <= j < CellCount
    ensures SharesUnit(i, j) <==> exists u :: 0 <= u < 27 && InUnit(u, i) && InUnit(u, j)
  {
    if SharesUnit(i, j) {
      var u := if Row(i) == Row(j) then Row(i) else if Col(i) == Col(j) then 9 + Col(i) else 18 + Box(i);
      assert InUnit(u, i) && InUnit(u, j);
    }
  }

  /** Flagged, unit by unit: flagged iff a duplicate inside some one of the 27 units. */
  lemma FlaggedIffUnitDup(vals: seq<int>, i: int)
    requires |vals| == CellCount && 0 <= i < CellCount
    ensures Flagged(vals, i) <==> exists u :: 0 <= u < 27 && DupAmong(vals, UnitCells(u), i)
  {
    if Flagged(vals, i) {
      var j :| 0 <= j < CellCount && j != i && SharesUnit(i, j) && vals[j] == vals[i];
      SharesUnitIffCommonUnit(i, j);
      var u :| 0 <= u < 27 && InUnit(u, i) && InUnit(u, j);
      UnitCellsExact(u);
      var cells := UnitCells(u);
      var q :| 0 <= q < 9 && cells[q] == j;
      assert DupAmong(vals, cells, i);
    }
    if exists u :: 0 <= u < 27 && DupAmong(vals, UnitCells(u), i) {
      var u :| 0 <= u < 27 && DupAmong(vals, UnitCells(u), i);
      var cells := UnitCells(u);
      var q :| 0 <= q < 9 && cells[q] != i && vals[cells[q]] == vals[i];
      var p :| 0 <= p < 9 && cells[p] == i;
      SharesUnitIffCommonUnit(i, cells[q]);
      assert SharesUnit(i, cells[q]);
    }
  }

  /** A unit repeats a digit exactly when one of its cells is a duplicate within it. */
  lemma RepeatsIffDupAmong(vals: seq<int>, u: int)
    requires |vals| == CellCount && 0 <= u < 27
    ensures RepeatsIn(vals, UnitCells(u)) <==> exists i :: 0 <= i < CellCount && DupAmong(vals, UnitCells(u), i)
  {
    UnitCellsExact(u);
    RepeatsGivesDup(vals, UnitCells(u));
    DupGivesRepeats(vals, UnitCells(u));
  }

  /** Of two positions holding the same digit, the first cell is a duplicate. */
  lemma RepeatsGivesDup(vals: seq<int>, cells: seq<int>)
    requires |vals| == CellCount && Distinct(cells)
    requires forall q :: 0 <= q < |cells| ==> 0 <= cells[q] < CellCount
    ensures RepeatsIn(vals, cells) ==> exists i :: 0 <= i < CellCount && DupAmong(vals, cells, i)
  {
    if RepeatsIn(vals, cells) {
      var p, q :| 0 <= p < q < |cells| && vals[cells[p]] != 0 && vals[cells[p]] == vals[cells[q]];
      assert DupAmong(vals, cells, cells[p]);
    }
  }

  /** A duplicate cell and its partner are two positions holding the same digit. */
  lemma DupGivesRepeats(vals: seq<int>, cells: seq<int>)
    requires |vals| == CellCount
    requires forall q :: 0 <= q < |cells| ==> 0 <= cells[q] < CellCount
    ensures (exists i :: 0 <= i < CellCount && DupAmong(vals, cells, i)) ==> RepeatsIn(vals, cells)
  {
    if exists i :: 0 <= i < CellCount && DupAmong(vals, cells, i) {
      var i :| 0 <= i < CellCount && DupAmong(vals, cells, i);
      var q :| 0 <= q < |cells| && cells[q] != i && vals[cells[q]] == vals[i];
      var p :| 0 <= p < |cells| && cells[p] == i;
      if p < q {
        assert vals[cells[p]] != 0 && vals[cells[p]] == vals[cells[q]];
      } else {
        assert vals[cells[q]] != 0 && vals[cells[q]] == vals[cells[p]];
      }
    }
  }

  /** A board has a conflict exactly when one of the 27 units repeats a digit. */
  lemma HasConflictIffSomeUnitRepeats(vals: seq<int>)
    requires |vals| == CellCount
    ensures HasConflict(vals) <==> exists u :: 0 <= u < 27 && RepeatsIn(vals, UnitCells(u))
  {
    if HasConflict(vals) {
      var i :| 0 <= i < CellCount && Flagged(vals, i);
      FlaggedIffUnitDup(vals, i);
      var u :| 0 <= u < 27 && DupAmong(vals, UnitCells(u), i);
      RepeatsIffDupAmong(vals, u);
    }
    if exists u :: 0 <= u < 27 && RepeatsIn(vals, UnitCells(u)) {
      var u :| 0 <= u < 27 && RepeatsIn(vals, UnitCells(u));
      RepeatsIffDupAmong(vals, u);
      var i :| 0 <= i < CellCount && DupAmong(vals, UnitCells(u), i);
      FlaggedIffUnitDup(vals, i);
    }
  }

  // ---------------------------------------------------------------------
  // computeConflicts

  /**
   * Scans one unit as `computeConflicts` does: clears `seen`/`firstPos`, then
   * visits each cell; a digit seen before in this unit flags the current cell
   * and the cell that first held it. Flags set earlier are kept.
   */
  method ScanUnit(vals: seq<int>, cells: seq<int>, conflict: array<bool>, seen: array<bool>, firstPos: array<int>)
    requires ValidValues(vals)
    requires forall q :: 0 <= q < |cells| ==> 0 <= cells[q] < CellCount
    requires Distinct(cells)
    requires conflict.Length == CellCount && seen.Length == 10 && firstPos.Length == 10
    requires conflict != seen
    modifies conflict, seen, firstPos
    ensures forall i :: 0 <= i < CellCount ==> conflict[i] == (old(conflict[i]) || DupAmong(vals, cells, i))
  {
    // resetUnitState
    forall v | 0 <= v < 10 {
      seen[v] := false;
    }
    forall v | 0 <= v < 10 {
      firstPos[v] := -1;
    }
    ghost var firstAt := seq(10, v => 0);
    for k := 0 to |cells|
      invariant ScanState(vals, cells, k, seen, firstPos, firstAt)
      invariant forall i :: 0 <= i < CellCount ==> conflict[i] == (old(conflict[i]) || DupAmong(vals, cells[..k], i))
    {
      firstAt := VisitCell(vals, cells, k, conflict, seen, firstPos, firstAt);
    }
    assert cells[..|cells|] == cells;
  }

  /**
   * What the scan of a unit knows after its first k cells: every digit met is
   * marked seen, and a seen digit's first cell is the one at position `firstAt[v]`.
   */
  ghost predicate ScanState(vals: seq<int>, cells: seq<int>, k: int, seen: array<bool>, firstPos: array<int>,
                            firstAt: seq<int>)
    requires ValidValues(vals) && 0 <= k <= |cells|
    requires forall q :: 0 <= q < |cells| ==> 0 <= cells[q] < CellCount
    reads seen, firstPos
  {
    && seen.Length == 10 && firstPos.Length == 10 && |firstAt| == 10
    && (forall q :: 0 <= q < k && vals[cells[q]] != 0 ==> seen[vals[cells[q]]])
    && (forall v :: 1 <= v <= 9 && seen[v] ==>
          0 <= firstAt[v] < k && firstPos[v] == cells[firstAt[v]] && vals[cells[firstAt[v]]] == v)
  }

  /**
   * `visitCell`: a blank changes nothing; a digit met before flags this cell
   * and the digit's first cell; a new digit is remembered with its cell.
   */
  method VisitCell(vals: seq<int>, cells: seq<int>, k: int, conflict: array<bool>, seen: array<bool>,
                   firstPos: array<int>, ghost firstAt: seq<int>) returns (ghost firstAt': seq<int>)
    requires ValidValues(vals) && 0 <= k < |cells|
    requires forall q :: 0 <= q < |cells| ==> 0 <= cells[q] < CellCount
    requires Distinct(cells)
    requires conflict.Length == CellCount && conflict != seen
    requires ScanState(vals, cells, k, seen, firstPos, firstAt)
    requires forall i :: 0 <= i < CellCount && DupAmong(vals, cells[..k], i) ==> conflict[i]
    modifies conflict, seen, firstPos
    ensures ScanState(vals, cells, k + 1, seen, firstPos, firstAt')
    ensures forall i :: 0 <= i < CellCount ==> (DupAmong(vals, cells[..k], i) ==> DupAmong(vals, cells[..k + 1], i))
    ensures forall i :: 0 <= i < CellCount ==> conflict[i] == (old(conflict[i]) || DupAmong(vals, cells[..k + 1], i))
  {
    var x := cells[k];
    var v := vals[x];
    firstAt' := firstAt;
    if v != 0 {
      if seen[v] {
        VisitRepeat(vals, cells, k, firstAt[v]);
        FlagPair(conflict, x, firstPos[v]);
      } else {
        VisitFirst(vals, cells, k);
        seen[v] := true;
        firstPos[v] := x;
        firstAt' := firstAt[v := k];
      }
    } else {
      VisitBlank(vals, cells, k);
    }
  }

  /** Sets the flags of cells x and y and keeps every other flag. */
  method FlagPair(conflict: array<bool>, x: int, y: int)
    requires 0 <= x < conflict.Length && 0 <= y < conflict.Length
    modifies conflict
    ensures forall i :: 0 <= i < conflict.Length ==> conflict[i] == (old(conflict[i]) || i == x || i == y)
  {
    conflict[x] := true;
    conflict[y] := true;
  }

  /** Visiting a blank changes no duplicate status. */
  lemma VisitBlank(vals: seq<int>, cells: seq<int>, k: int)
    requires ValidValues(vals)
    requires forall q :: 0 <= q < |cells| ==> 0 <= cells[q] < CellCount
    requires 0 <= k < |cells| && vals[cells[k]] == 0
    ensures forall i :: 0 <= i < CellCount ==> (DupAmong(vals, cells[..k + 1], i) <==> DupAmong(vals, cells[..k], i))
  {
    assert cells[..k + 1] == cells[..k] + [cells[k]];
  }

  /** Visiting the first occurrence of a digit in a unit changes no duplicate status. */
  lemma VisitFirst(vals: seq<int>, cells: seq<int>, k: int)
    requires ValidValues(vals)
    requires forall q :: 0 <= q < |cells| ==> 0 <= cells[q] < CellCount
    requires Distinct(cells)
    requires 0 <= k < |cells| && vals[cells[k]] != 0
    requires forall q :: 0 <= q < k ==> vals[cells[q]] != vals[cells[k]]
    ensures forall i :: 0 <= i < CellCount ==> (DupAmong(vals, cells[..k + 1], i) <==> DupAmong(vals, cells[..k], i))
  {
    assert cells[..k + 1] == cells[..k] + [cells[k]];
  }

  /**
   * Visiting a repeat of a digit whose first occurrence is `first`: the repeat
   * and `first` become duplicates, every other cell keeps its status.
   */
  lemma VisitRepeat(vals: seq<int>, cells: seq<int>, k: int, p: int)
    requires ValidValues(vals)
    requires forall q :: 0 <= q < |cells| ==> 0 <= cells[q] < CellCount
    requires Distinct(cells)
    requires 0 <= p < k < |cells| && vals[cells[k]] != 0 && vals[cells[p]] == vals[cells[k]]
    ensures forall i :: 0 <= i < CellCount ==>
      (DupAmong(vals, cells[..k + 1], i) <==> DupAmong(vals, cells[..k], i) || i == cells[k] || i == cells[p])
  {
    var pre, post := cells[..k], cells[..k + 1];
    var first := cells[p];
    assert post == pre + [cells[k]];
    forall i | 0 <= i < CellCount
      ensures DupAmong(vals, post, i) <==> DupAmong(vals, pre, i) || i == cells[k] || i == first
    {
      if i == cells[k] {
        assert post[p] != i && vals[post[p]] == vals[i];
      } else if i == first {
        assert post[k] != i && vals[post[k]] == vals[i];
      } else if DupAmong(vals, post, i) {
        var q :| 0 <= q < k + 1 && post[q] != i && vals[post[q]] == vals[i];
        if q == k {
          assert i in pre;
          assert pre[p] != i && vals[pre[p]] == vals[i];
        }
      }
    }
  }

  /** After scanning units 0..u-1, a cell is flagged iff one of them holds a duplicate on it. */
  ghost predicate FlaggedUpTo(vals: seq<int>, flags: array<bool>, u: int)
    requires |vals| == CellCount && 0 <= u <= 27
    reads flags
  {
    && flags.Length == CellCount
    && forall i :: 0 <= i < CellCount ==>
         (flags[i] <==> exists w :: 0 <= w < u && DupAmong(vals, UnitCells(w), i))
  }

  /** Scans unit u, extending the flags from units 0..u-1 to units 0..u. */
  method ScanUnitNumber(vals: seq<int>, u: int, flags: array<bool>, seen: array<bool>, firstPos: array<int>)
    requires ValidValues(vals) && 0 <= u < 27
    requires FlaggedUpTo(vals, flags, u)
    requires seen.Length == 10 && firstPos.Length == 10 && flags != seen
    modifies flags, seen, firstPos
    ensures FlaggedUpTo(vals, flags, u + 1)
  {
    UnitCellsExact(u);
    ScanUnit(vals, UnitCells(u), flags, seen, firstPos);
  }

  /**
   * `computeConflicts`: scans the 9 rows, the 9 columns and the 9 boxes and
   * returns one flag per cell. A cell ends up flagged exactly when it holds a
   * digit that another cell of one of its units also holds.
   */
  method ComputeConflicts(vals: seq<int>) returns (conflict: seq<bool>)
    requires ValidValues(vals)
    ensures |conflict| == CellCount
    ensures forall i :: 0 <= i < CellCount ==> (conflict[i] <==> Flagged(vals, i))
  {
    var flags := new bool[CellCount](_ => false);
    var seen := new bool[10];
    var firstPos := new int[10];
    for r := 0 to 9
      invariant FlaggedUpTo(vals, flags, r)
    {
      ScanUnitNumber(vals, r, flags, seen, firstPos);
    }
    for c := 0 to 9
      invariant FlaggedUpTo(vals, flags, 9 + c)
    {
      ScanUnitNumber(vals, 9 + c, flags, seen, firstPos);
    }
    for br := 0 to 3
      invariant FlaggedUpTo(vals, flags, 18 + 3 * br)
    {
      for bc := 0 to 3
        invariant FlaggedUpTo(vals, flags, 18 + 3 * br + bc)
      {
        ScanUnitNumber(vals, 18 + 3 * br + bc, flags, seen, firstPos);
      }
    }
    conflict := flags[..];
    forall i | 0 <= i < CellCount ensures conflict[i] <==> Flagged(vals, i) {
      FlaggedIffUnitDup(vals, i);
    }
  }

  // ---------------------------------------------------------------------
  // isCompleteAndValid

  /** The `reason` strings of `isCompleteAndValid`. */
  datatype Reason = Incomplete | Conflicts | Solved

  /** The `{ ok, reason }` record of `isCompleteAndValid`. */
  datatype Verdict = Verdict(ok: bool, reason: Reason)

  /** No cell before index i is empty or flagged. */
  ghost predicate NoProblemBefore(vals: seq<int>, i: int)
    requires |vals| == CellCount && i <= CellCount
  {
    forall j :: 0 <= j < i ==> vals[j] != 0 && !Flagged(vals, j)
  }

  /**
   * `isCompleteAndValid`: walks the cells in index order and reports the
   * first one that is empty ("Incomplete") or flagged ("Conflicts"); a board
   * with neither is "Solved".
   */
  method IsCompleteAndValid(vals: seq<int>) returns (res: Verdict)
    requires ValidValues(vals)
    ensures res.ok <==> (forall i :: 0 <= i < CellCount ==> vals[i] != 0) && !HasConflict(vals)
    ensures res.ok <==> res.reason == Solved
    ensures res.reason == Incomplete <==>
      exists i :: 0 <= i < CellCount && vals[i] == 0 && NoProblemBefore(vals, i)
    ensures res.reason == Conflicts <==>
      exists i :: 0 <= i < CellCount && vals[i] != 0 && Flagged(vals, i) && NoProblemBefore(vals, i)
  {
    var conflict := ComputeConflicts(vals);
    for i := 0 to CellCount
      invariant NoProblemBefore(vals, i)
    {
      if vals[i] == 0 {
        return Verdict(false, Incomplete);
      }
      if conflict[i] {
        return Verdict(false, Conflicts);
      }
    }
    return Verdict(true, Solved);
  }

  // ---------------------------------------------------------------------
  // gridHasGivenConflicts

  /**
   * `hasDupes`: whether two of the listed cells hold the same digit; stops at
   * the first digit seen a second time.
   */
  method HasDupes(vals: seq<int>, cells: seq<int>) returns (dup: bool)
    requires ValidValues(vals)
    requires forall q :: 0 <= q < |cells| ==> 0 <= cells[q] < CellCount
    ensures dup <==> RepeatsIn(vals, cells)
  {
    var seen := new bool[10](_ => false);
    for k := 0 to |cells|
      invariant forall v :: 1 <= v <= 9 ==> (seen[v] <==> exists q :: 0 <= q < k && vals[cells[q]] == v)
      invariant !RepeatsIn(vals, cells[..k])
    {
      var v := vals[cells[k]];
      if v != 0 {
        if seen[v] {
          ghost var q :| 0 <= q < k && vals[cells[q]] == v;
          assert vals[cells[q]] != 0 && vals[cells[q]] == vals[cells[k]];
          return true;
        }
        seen[v] := true;
      }
      assert !RepeatsIn(vals, cells[..k + 1]) by {
        var pre, post := cells[..k], cells[..k + 1];
        assert post == pre + [cells[k]];
        forall p, q | 0 <= p < q < k + 1 && vals[post[p]] != 0 ensures vals[post[p]] != vals[post[q]] {
          if q < k {
            assert pre[p] == post[p] && pre[q] == post[q];
          }
        }
      }
    }
    assert cells[..|cells|] == cells;
    return false;
  }

  /**
   * `gridHasGivenConflicts`: parses the grid (a malformed grid is the parse
   * error, as the source throws it) and reports whether some row, column or
   * box repeats a given digit.
   */
  method GridHasGivenConflicts(g: string) returns (res: Result<bool>)
    ensures res.Err? <==> !ValidGrid(g)
    ensures res.Err? ==> res.error == ParseGrid(g).error
    ensures res.Ok? ==> (res.value <==> HasConflict(Cells(g)))
  {
    var parsed := ParsePuzzleGrid(g);
    if parsed.Err? {
      return Err(parsed.error);
    }
    var vals := parsed.value;
    assert vals == Cells(g);
    var found := AnyUnitRepeats(vals);
    HasConflictIffSomeUnitRepeats(vals);
    return Ok(found);
  }

  /** The three unit scans of `gridHasGivenConflicts`, stopping at the first unit that repeats a digit. */
  method AnyUnitRepeats(vals: seq<int>) returns (found: bool)
    requires ValidValues(vals)
    ensures found <==> exists u :: 0 <= u < 27 && RepeatsIn(vals, UnitCells(u))
  {
    for r := 0 to 9
      invariant forall u :: 0 <= u < r ==> !RepeatsIn(vals, UnitCells(u))
    {
      var dup := HasDupes(vals, UnitCells(r));
      if dup {
        return true;
      }
    }
    for c := 0 to 9
      invariant forall u :: 0 <= u < 9 + c ==> !RepeatsIn(vals, UnitCells(u))
    {
      var dup := HasDupes(vals, UnitCells(9 + c));
      if dup {
        return true;
      }
    }
    for br := 0 to 3
      invariant forall u :: 0 <= u < 18 + 3 * br ==> !RepeatsIn(vals, UnitCells(u))
    {
      for bc := 0 to 3
        invariant forall u :: 0 <= u < 18 + 3 * br + bc ==> !RepeatsIn(vals, UnitCells(u))
      {
        var dup := HasDupes(vals, UnitCells(18 + 3 * br + bc));
        if dup {
          return true;
        }
      }
    }
    return false;
  }
}
