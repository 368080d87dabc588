/**
 * The page's mutable state: the cached puzzle pool, one shuffled draw queue
 * per difficulty, the index of the loaded puzzle, the selected cell, and the
 * board buffers `given`, `values` and `notes` with the reset snapshot.
 *
 * `Math.random` is the stream `rand`; `draws` is the position of the next
 * draw. Notes are 16-bit masks where bit d-1 stands for the pencil mark d.
 */
module Session {
  import opened Grid
  import opened Shuffle
  import opened ConflictEngine
  import opened Pool

  datatype Option<T> = None | Some(value: T)

  /**
   * JavaScript's `%` on integers, for a positive divisor: the dividend minus
   * whole multiples of the divisor, taken towards zero, so the remainder has
   * the dividend's sign.
   */
  function JsRem(a: int, n: int): (r: int)
    requires n > 0
    ensures -n < r < n
    ensures a >= 0 ==> 0 <= r
    ensures a <= 0 ==> r <= 0
    decreases if a >= 0 then a else -a
  {
    if -n < a < n then a
    else if a >= n then JsRem(a - n, n)
    else JsRem(a + n, n)
  }

  /**
   * The remainder is what is left after taking whole multiples of the divisor
   * towards zero: a quotient of the dividend's sign completes the division.
   */
  lemma {:induction false} JsRemQuotient(a: int, n: int) returns (q: int)
    requires n > 0
    ensures a == q * n + JsRem(a, n)
    ensures a >= 0 ==> q >= 0
    ensures a <= 0 ==> q <= 0
    decreases if a >= 0 then a else -a
  {
    if -n < a < n {
      q := 0;
    } else if a >= n {
      var q' := JsRemQuotient(a - n, n);
      assert JsRem(a, n) == JsRem(a - n, n);
      q := q' + 1;
      MultipleShift(a, n, q', JsRem(a, n), 1);
    } else {
      var q' := JsRemQuotient(a + n, n);
      assert JsRem(a, n) == JsRem(a + n, n);
      q := q' - 1;
      MultipleShift(a, n, q', JsRem(a, n), -1);
    }
  }

  /** Taking one more (or one fewer) multiple of n off the dividend moves the quotient by one. */
  lemma MultipleShift(a: int, n: int, q: int, r: int, d: int)
    requires a - d * n == q * n + r
    ensures a == (q + d) * n + r
  {
    assert (q + d) * n == q * n + d * n;
  }

  /**
   * Adding the length once to a remainder and taking the remainder again lands
   * in 0..n-1: the value itself when it was not negative, else one length up.
   */
  lemma JsRemWrap(a: int, n: int)
    requires n > 0 && -n < a < n
    ensures JsRem(a + n, n) == if a >= 0 then a else a + n
  {
    if a >= 0 {
      assert JsRem(a + n, n) == JsRem(a, n);
    }
  }

  /** Truncation is symmetric: negating the dividend negates the remainder. */
  lemma {:induction false} JsRemOdd(a: int, n: int)
    requires n > 0
    ensures JsRem(-a, n) == -JsRem(a, n)
    decreases if a >= 0 then a else -a
  {
    if a >= n {
      JsRemOdd(a - n, n);
    } else if a <= -n {
      JsRemOdd(a + n, n);
    }
  }

  /** JavaScript's `x | 0` on an integer: reduce to a signed 32-bit value. */
  function ToInt32(x: int): (y: int)
    ensures -0x8000_0000 <= y < 0x8000_0000
    ensures (x - y) % 0x1_0000_0000 == 0
    ensures -0x8000_0000 <= x < 0x8000_0000 ==> y == x
  {
    var m := x % 0x1_0000_0000;
    if m >= 0x8000_0000 then m - 0x1_0000_0000 else m
  }

  /** `Math.max(0, Math.min(9, d))`. */
  function Clamp(d: int): (v: int)
    ensures 0 <= v <= 9
    ensures 0 <= d <= 9 ==> v == d
    ensures d < 0 ==> v == 0
    ensures d > 9 ==> v == 9
  {
    if d < 0 then 0 else if d > 9 then 9 else d
  }

  /** The mask bit of pencil mark d, `1 << (d - 1)`. */
  function NoteBit(d: int): (b: bv16)
    requires 1 <= d <= 9
    ensures 0 < b < 512
    ensures b & (b - 1) == 0
  {
    (1 as bv16) << (d - 1)
  }

  /**
   * Flipping the bit of mark d keeps the mask to 9 bits, changes exactly that
   * bit, and flipping it again restores the mask.
   */
  lemma FlipNote(mask: bv16, d: int)
    requires mask < 512 && 1 <= d <= 9
    ensures mask ^ NoteBit(d) < 512
    ensures (mask ^ NoteBit(d)) ^ mask == NoteBit(d)
    ensures (mask ^ NoteBit(d)) ^ NoteBit(d) == mask
  {
  }

  /** Marks 1..9 own separate bits, so toggling one mark never touches another. */
  lemma NoteBitsDisjoint(d: int, e: int)
    requires 1 <= d <= 9 && 1 <= e <= 9
    ensures NoteBit(d) & NoteBit(e) == 0 <==> d != e
  {
  }

  /** A draw queue holds distinct pool positions whose entries have difficulty `level`. */
  ghost predicate QueueFits(pool: Option<seq<Puzzle>>, queue: seq<int>, level: string) {
    && Distinct(queue)
    && forall k :: 0 <= k < |queue| ==> PositionOf(pool, queue[k], level)
  }

  /** `x` is a position of the pool whose entry has difficulty `level`. */
  ghost predicate PositionOf(pool: Option<seq<Puzzle>>, x: int, level: string) {
    pool.Some? && 0 <= x < |pool.value| && pool.value[x].difficulty == level
  }

  /** Every per-difficulty queue fits the pool. */
  ghost predicate CyclesFit(pool: Option<seq<Puzzle>>, cycles: map<string, seq<int>>) {
    forall l :: l in cycles ==> QueueFits(pool, cycles[l], l)
  }

  /** A pool the build can produce from `seeds`: grown Easy, Medium and Hard lists, concatenated. */
  ghost predicate BuiltFrom(pool: seq<Puzzle>, seeds: seq<Puzzle>) {
    exists parts: seq<seq<Puzzle>> ::
      && |parts| == |Levels|
      && pool == parts[0] + parts[1] + parts[2]
      && forall l :: 0 <= l < |Levels| ==> GrownFrom(parts[l], SeedsOf(seeds, Levels[l]), Levels[l])
  }

  /**
   * The board invariant: 81-cell buffers; givens and values are blanks or
   * digits; notes use 9 bits; a given cell shows its given; a cell holding a
   * value has no notes; the snapshot is the puzzle as loaded, its givens and
   * no notes.
   */
  ghost predicate BoardOk(given: array<int>, values: array<int>, notes: array<bv16>,
                          initialValues: array<int>, initialNotes: array<bv16>)
    reads given, values, notes, initialValues, initialNotes
  {
    && given.Length == CellCount && values.Length == CellCount && notes.Length == CellCount
    && initialValues.Length == CellCount && initialNotes.Length == CellCount
    && given != values && given != initialValues && values != initialValues && notes != initialNotes
    && values as object != notes as object && values as object != initialNotes as object
    && notes as object != given as object && notes as object != initialValues as object
    && ValidValues(given[..]) && ValidValues(values[..])
    && (forall i :: 0 <= i < CellCount ==> notes[i] < 512)
    && (forall i :: 0 <= i < CellCount ==> given[i] != 0 ==> values[i] == given[i])
    && (forall i :: 0 <= i < CellCount ==> values[i] != 0 ==> notes[i] == 0)
    && initialValues[..] == given[..]
    && (forall i :: 0 <= i < CellCount ==> initialNotes[i] == 0)
  }

  /** Queues that fit no pool at all are empty, so they fit any pool. */
  lemma CyclesFitNone(cycles: map<string, seq<int>>, pool: seq<Puzzle>)
    requires CyclesFit(None, cycles)
    ensures CyclesFit(Some(pool), cycles)
  {
  }

  /** Replacing one queue by a fitting one keeps all queues fitting. */
  lemma CyclesFitUpdate(pool: Option<seq<Puzzle>>, cycles: map<string, seq<int>>, level: string, cycle: seq<int>)
    requires CyclesFit(pool, cycles) && QueueFits(pool, cycle, level)
    ensures CyclesFit(pool, cycles[level := cycle])
  {
  }

  /** What is left of a fitting queue after taking entries off its front still fits. */
  lemma QueueSuffixFits(pool: Option<seq<Puzzle>>, queue: seq<int>, level: string, t: int)
    requires QueueFits(pool, queue, level) && 0 <= t <= |queue|
    ensures QueueFits(pool, queue[t..], level)
  {
    var rest := queue[t..];
    forall k | 0 <= k < |rest| ensures PositionOf(pool, rest[k], level) {
      assert rest[k] == queue[t + k];
    }
    forall i, j | 0 <= i < j < |rest| ensures rest[i] != rest[j] {
      assert rest[i] == queue[t + i] && rest[j] == queue[t + j];
    }
  }

  /** A second update of the same key overrides the first. */
  lemma UpdateTwice<K, V>(m: map<K, V>, k: K, a: V, b: V)
    ensures m[k := a][k := b] == m[k := b]
  {
  }

  /**
   * How many entries `loadRandomPuzzleByDifficulty` shifts off a non-empty
   * queue: one, or two when the first is the loaded puzzle and more remain.
   */
  function Shifts(queue: seq<int>, current: int): (t: nat)
    requires |queue| > 0
    ensures 1 <= t <= |queue| && t <= 2
  {
    if queue[0] == current && |queue| > 1 then 2 else 1
  }

  /** From a queue without repetitions, the loaded puzzle is drawn again only when it is the whole queue. */
  lemma DrawAvoidsCurrent(queue: seq<int>, current: int)
    requires |queue| > 0 && Distinct(queue)
    ensures queue[Shifts(queue, current) - 1] == current <==> queue == [current]
  {
    if queue[Shifts(queue, current) - 1] == current {
      assert queue == [current];
    }
  }

  /**
   * `queue` is the queue a draw for `level` uses: the stored one when it is
   * non-empty, otherwise a rearrangement of the level's pool positions.
   */
  ghost predicate Refilled(before: map<string, seq<int>>, pool: seq<Puzzle>, level: string, queue: seq<int>) {
    && (level in before && |before[level]| > 0 ==> queue == before[level])
    && (level !in before || |before[level]| == 0 ==> multiset(queue) == multiset(LevelIndexes(pool, level)))
  }

  /**
   * A draw from `queue` while `current` is loaded: nothing is drawn from an
   * empty queue; otherwise the shifted entries leave the queue and the last of
   * them is the pick.
   */
  ghost predicate Drew(before: map<string, seq<int>>, after: map<string, seq<int>>, level: string,
                       queue: seq<int>, current: int, pick: Option<int>) {
    if |queue| == 0 then pick.None? && after == before[level := queue]
    else
      var t := Shifts(queue, current);
      pick == Some(queue[t - 1]) && after == before[level := queue[t..]]
  }

  /** A shuffle of a level's pool positions is a queue that fits the pool. */
  lemma ShuffledIndexesFit(pool: seq<Puzzle>, level: string, indexes: seq<int>, cycle: seq<int>)
    requires indexes == LevelIndexes(pool, level)
    requires multiset(cycle) == multiset(indexes)
    ensures QueueFits(Some(pool), cycle, level)
  {
    PermutationKeepsDistinct(cycle, indexes);
    forall k | 0 <= k < |cycle|
      ensures 0 <= cycle[k] < |pool| && pool[cycle[k]].difficulty == level
    {
      PermutationKeepsElements(cycle, indexes, k);
    }
  }

  /**
   * Fresh board buffers for parsed cell values: the givens, a copy as the
   * values, empty notes, and a snapshot copying both.
   */
  method NewBoard(cells: seq<int>)
    returns (given: array<int>, values: array<int>, notes: array<bv16>,
             initialValues: array<int>, initialNotes: array<bv16>)
    requires ValidValues(cells)
    ensures fresh(given) && fresh(values) && fresh(notes) && fresh(initialValues) && fresh(initialNotes)
    ensures BoardOk(given, values, notes, initialValues, initialNotes)
    ensures given[..] == cells && values[..] == cells
    ensures forall i :: 0 <= i < CellCount ==> notes[i] == 0
    ensures initialValues[..] == values[..] && initialNotes[..] == notes[..]
  {
    given := new int[CellCount](i requires 0 <= i < CellCount => cells[i]);
    values := new int[CellCount](i requires 0 <= i < CellCount => cells[i]);
    notes := new bv16[CellCount](_ => 0);
    initialValues := new int[CellCount](i requires 0 <= i < CellCount => cells[i]);
    initialNotes := new bv16[CellCount](_ => 0);
    assert given[..] == cells && values[..] == cells && initialValues[..] == cells;
    assert initialNotes[..] == notes[..];
  }

  class Session {
    const rand: nat -> nat
    const seeds: seq<Puzzle>
    var draws: nat
    var poolCache: Option<seq<Puzzle>>
    var cycles: map<string, seq<int>>
    var puzzleIdx: int
    var selectedIdx: int
    var given: array<int>
    var values: array<int>
    var notes: array<bv16>
    var initialValues: array<int>
    var initialNotes: array<bv16>

    /**
     * Class invariant: the board buffers keep `BoardOk`, the selection is -1 or
     * a cell, the cached pool is a built pool, and the queues fit the pool.
     */
    ghost predicate Valid()
      reads this, given, values, notes, initialValues, initialNotes
    {
      && BoardOk(given, values, notes, initialValues, initialNotes)
      && -1 <= selectedIdx < CellCount
      && SeedShape(seeds)
      && (poolCache.Some? ==> PoolShape(poolCache.value) && BuiltFrom(poolCache.value, seeds))
      && CyclesFit(poolCache, cycles)
    }

    /** The board buffers and the selection are the ones before the call. */
    twostate predicate BoardKept()
      reads this
    {
      && given == old(given) && values == old(values) && notes == old(notes)
      && initialValues == old(initialValues) && initialNotes == old(initialNotes)
      && selectedIdx == old(selectedIdx)
    }

    /** The state the page's globals start in: empty buffers, nothing selected, no pool yet. */
    constructor (rand: nat -> nat)
      ensures Valid()
      ensures this.rand == rand && seeds == Seeds && draws == 0
      ensures poolCache == None && cycles == map["Easy" := [], "Medium" := [], "Hard" := []]
      ensures puzzleIdx == 0 && selectedIdx == -1
      ensures forall i :: 0 <= i < CellCount ==> given[i] == 0 && values[i] == 0 && notes[i] == 0
    {
      this.rand := rand;
      seeds := Seeds;
      SeedsWellFormed();
      draws := 0;
      poolCache := None;
      cycles := map["Easy" := [], "Medium" := [], "Hard" := []];
      puzzleIdx := 0;
      var blank := seq(CellCount, _ => 0);
      var g, v, ns, iv, ins := NewBoard(blank);
      given, values, notes, initialValues, initialNotes, selectedIdx := g, v, ns, iv, ins, -1;
    }

    /** `isEditable`: a cell is editable when it is a cell of the board and has no given. */
    predicate IsEditable(idx: int)
      reads this, given
      ensures IsEditable(idx) ==> 0 <= idx < given.Length
    {
      0 <= idx < given.Length && given[idx] == 0
    }

    /** `getPuzzlePool`: build the pool on the first call, then return the cached one. */
    method GetPuzzlePool() returns (pool: seq<Puzzle>)
      requires Valid()
      modifies this
      ensures Valid() && BoardKept()
      ensures poolCache == Some(pool) && PoolShape(pool) && BuiltFrom(pool, seeds)
      ensures old(poolCache).Some? ==> pool == old(poolCache).value && draws == old(draws)
      ensures cycles == old(cycles) && puzzleIdx == old(puzzleIdx)
    {
      if poolCache.Some? {
        return poolCache.value;
      }
      var n;
      ghost var parts;
      pool, n, parts := BuildPool(seeds, rand, draws);
      assert BuiltFrom(pool, seeds);
      CyclesFitNone(cycles, pool);
      draws := n;
      poolCache := Some(pool);
    }

    /** `puzzleIndexesByDifficulty`: the positions of the pool entries labelled `level`. */
    method PuzzleIndexesByDifficulty(level: string) returns (out: seq<int>)
      requires Valid()
      modifies this
      ensures Valid() && BoardKept()
      ensures poolCache.Some? && out == LevelIndexes(poolCache.value, level)
      ensures old(poolCache).Some? ==> poolCache == old(poolCache) && draws == old(draws)
      ensures cycles == old(cycles) && puzzleIdx == old(puzzleIdx)
    {
      var pool := GetPuzzlePool();
      out := IndexesByDifficulty(pool, level);
    }

    /**
     * `refillPuzzleCycle`: the queue of `level` becomes a shuffle of the pool
     * positions of that difficulty; nothing else but the pool cache and the
     * random position changes.
     */
    method RefillPuzzleCycle(level: string)
      requires Valid()
      modifies this
      ensures Valid() && BoardKept()
      ensures poolCache.Some? && (old(poolCache).Some? ==> poolCache == old(poolCache))
      ensures level in cycles && cycles == old(cycles)[level := cycles[level]]
      ensures multiset(cycles[level]) == multiset(LevelIndexes(poolCache.value, level))
      ensures puzzleIdx == old(puzzleIdx)
    {
      var indexes := PuzzleIndexesByDifficulty(level);
      var cycle, n := ShuffleCopy(indexes, rand, draws);
      ShuffledIndexesFit(poolCache.value, level, indexes, cycle);
      StoreCycle(level, cycle, n);
    }

    /** Stores a fitting queue for `level` and the new position in the random stream. */
    method StoreCycle(level: string, cycle: seq<int>, n: nat)
      requires Valid() && QueueFits(poolCache, cycle, level)
      modifies this
      ensures Valid() && BoardKept()
      ensures cycles == old(cycles)[level := cycle] && draws == n
      ensures poolCache == old(poolCache) && puzzleIdx == old(puzzleIdx)
    {
      CyclesFitUpdate(poolCache, cycles, level, cycle);
      draws, cycles := n, cycles[level := cycle];
    }

    /**
     * The board part of `loadPuzzleFromData`: wrap the index into the pool,
     * then install the puzzle's grid. A grid that does not parse makes the
     * source throw after the index is set; `loaded` is then false and the
     * board is kept.
     */
    method LoadPuzzleFromData(data: Puzzle, baseIndex: int) returns (loaded: bool)
      requires Valid()
      modifies this
      ensures Valid()
      ensures poolCache.Some? && (old(poolCache).Some? ==> poolCache == old(poolCache))
      ensures cycles == old(cycles)
      ensures var size := |poolCache.value|;
        puzzleIdx == (if size > 0 then JsRem(baseIndex + size, size) else 0)
      ensures loaded <==> ValidGrid(data.grid)
      ensures !loaded ==> BoardKept()
      ensures loaded ==>
        && fresh(given) && fresh(values) && fresh(notes) && fresh(initialValues) && fresh(initialNotes)
        && given[..] == Cells(data.grid) && values[..] == given[..]
        && (forall i :: 0 <= i < CellCount ==> notes[i] == 0)
        && initialValues[..] == values[..] && initialNotes[..] == notes[..]
        && selectedIdx == -1
    {
      var pool := GetPuzzlePool();
      var size := |pool|;
      puzzleIdx := if size > 0 then JsRem(baseIndex + size, size) else 0;
      loaded := InstallGrid(data.grid);
    }

    /**
     * Parse a grid and, when it parses, make it the board: its givens, the same
     * values, no notes, a snapshot of both, and nothing selected.
     */
    method InstallGrid(grid: string) returns (loaded: bool)
      requires Valid()
      modifies this
      ensures Valid()
      ensures poolCache == old(poolCache) && cycles == old(cycles) && puzzleIdx == old(puzzleIdx)
      ensures loaded <==> ValidGrid(grid)
      ensures !loaded ==> BoardKept()
      ensures loaded ==>
        && fresh(given) && fresh(values) && fresh(notes) && fresh(initialValues) && fresh(initialNotes)
        && given[..] == Cells(grid) && values[..] == given[..]
        && (forall i :: 0 <= i < CellCount ==> notes[i] == 0)
        && initialValues[..] == values[..] && initialNotes[..] == notes[..]
        && selectedIdx == -1
    {
      var parsed := ParsePuzzleGrid(grid);
      if parsed.Err? {
        loaded := false;
      } else {
        ShowBoard(parsed.value);
        loaded := true;
      }
    }

    /** Fresh buffers for the cells become the board and its snapshot; nothing is selected. */
    method ShowBoard(cells: seq<int>)
      requires Valid() && ValidValues(cells)
      modifies this
      ensures Valid()
      ensures poolCache == old(poolCache) && cycles == old(cycles) && puzzleIdx == old(puzzleIdx)
      ensures fresh(given) && fresh(values) && fresh(notes) && fresh(initialValues) && fresh(initialNotes)
      ensures given[..] == cells && values[..] == cells
      ensures forall i :: 0 <= i < CellCount ==> notes[i] == 0
      ensures initialValues[..] == values[..] && initialNotes[..] == notes[..]
      ensures selectedIdx == -1
    {
      var g, v, ns, iv, ins := NewBoard(cells);
      given, values, notes, initialValues, initialNotes, selectedIdx := g, v, ns, iv, ins, -1;
    }

    /**
     * `loadPuzzle`: with a non-empty pool, load the entry at `(n + len) % len`.
     * For n below -len that remainder is negative, the source reads an
     * undefined entry and throws; `loaded` is then false.
     */
    method LoadPuzzle(n: int) returns (loaded: bool)
      requires Valid()
      modifies this
      ensures Valid()
      ensures poolCache.Some? && (old(poolCache).Some? ==> poolCache == old(poolCache))
      ensures cycles == old(cycles)
      ensures |poolCache.value| == 0 ==> !loaded && BoardKept() && puzzleIdx == old(puzzleIdx)
      ensures var pool := poolCache.value; var len := |pool|; len > 0 && JsRem(n + len, len) >= 0 ==>
        var r := JsRem(n + len, len);
        && loaded && puzzleIdx == r
        && given[..] == Cells(pool[r].grid) && values[..] == given[..]
        && (forall i :: 0 <= i < CellCount ==> notes[i] == 0)
        && selectedIdx == -1
      ensures var len := |poolCache.value|; len > 0 && JsRem(n + len, len) < 0 ==>
        !loaded && BoardKept() && puzzleIdx == JsRem(n + len, len) + len
      ensures |poolCache.value| > 0 && n >= -|poolCache.value| ==> loaded
      ensures 0 <= n < |poolCache.value| ==> loaded && puzzleIdx == n
    {
      var pool := GetPuzzlePool();
      if |pool| == 0 {
        loaded := false;
      } else {
        loaded := LoadWrapped(n);
      }
    }

    /** The part of `loadPuzzle` after the pool is known to be non-empty. */
    method LoadWrapped(n: int) returns (loaded: bool)
      requires Valid() && poolCache.Some? && |poolCache.value| > 0
      modifies this
      ensures Valid() && poolCache == old(poolCache) && cycles == old(cycles)
      ensures var pool := poolCache.value; var len := |pool|; var r := JsRem(n + len, len);
        r >= 0 ==>
          && loaded && puzzleIdx == r
          && given[..] == Cells(pool[r].grid) && values[..] == given[..]
          && (forall i :: 0 <= i < CellCount ==> notes[i] == 0)
          && selectedIdx == -1
      ensures var len := |poolCache.value|; var r := JsRem(n + len, len);
        r < 0 ==> !loaded && BoardKept() && puzzleIdx == r + len
      ensures n >= -|poolCache.value| ==> loaded
      ensures 0 <= n < |poolCache.value| ==> loaded && puzzleIdx == n
    {
      var pool := poolCache.value;
      var len := |pool|;
      var r := JsRem(n + len, len);
      JsRemWrap(r, len);
      if 0 <= n < len {
        JsRemWrap(n, len);
      }
      if r < 0 {
        // pool[r] is undefined: loadPuzzleFromData wraps the index once more, then reading its grid throws.
        puzzleIdx := JsRem(r + len, len);
        loaded := false;
      } else {
        loaded := LoadPuzzleFromData(pool[r], r);
        assert poolCache.value == pool && given[..] == Cells(pool[r].grid);
      }
    }

    /**
     * The shifts of `loadRandomPuzzleByDifficulty` on a non-empty queue: the
     * drawn entry comes off the front together with any entry skipped before it.
     */
    method ShiftCycle(level: string) returns (pick: int)
      requires Valid() && level in cycles && |cycles[level]| > 0
      modifies this
      ensures Valid() && BoardKept() && puzzleIdx == old(puzzleIdx)
      ensures poolCache == old(poolCache) && draws == old(draws)
      ensures var q := old(cycles)[level]; var t := Shifts(q, puzzleIdx);
        pick == q[t - 1] && cycles == old(cycles)[level := q[t..]]
      ensures poolCache.Some? && 0 <= pick < |poolCache.value| && poolCache.value[pick].difficulty == level
    {
      var q := cycles[level];
      assert QueueFits(poolCache, q, level);
      var t := Shifts(q, puzzleIdx);
      pick := q[t - 1];
      QueueSuffixFits(poolCache, q, level, t);
      CyclesFitUpdate(poolCache, cycles, level, q[t..]);
      cycles := cycles[level := q[t..]];
    }

    /** The refill step of `loadRandomPuzzleByDifficulty`: a missing or empty queue is refilled. */
    method EnsureCycle(level: string)
      requires Valid()
      modifies this
      ensures Valid() && BoardKept() && puzzleIdx == old(puzzleIdx)
      ensures level in cycles && cycles == old(cycles)[level := cycles[level]]
      ensures level in old(cycles) && |old(cycles)[level]| > 0 ==>
        cycles == old(cycles) && poolCache == old(poolCache) && draws == old(draws)
      ensures level !in old(cycles) || |old(cycles)[level]| == 0 ==>
        && poolCache.Some? && (old(poolCache).Some? ==> poolCache == old(poolCache))
        && multiset(cycles[level]) == multiset(LevelIndexes(poolCache.value, level))
      ensures |cycles[level]| > 0 ==> poolCache.Some?
    {
      if level !in cycles || |cycles[level]| == 0 {
        RefillPuzzleCycle(level);
      }
      if |cycles[level]| > 0 {
        assert QueueFits(poolCache, cycles[level], level);
        assert cycles[level][0] in cycles[level];
      }
    }

    /**
     * The queue part of `loadRandomPuzzleByDifficulty` for a known level:
     * refill an empty queue, then shift from it. `queue` is the queue drawn from.
     */
    method DrawFromCycle(level: string) returns (pick: Option<int>, ghost queue: seq<int>)
      requires Valid() && level in Levels
      modifies this
      ensures Valid() && BoardKept() && puzzleIdx == old(puzzleIdx)
      ensures poolCache.Some? && (old(poolCache).Some? ==> poolCache == old(poolCache))
      ensures Refilled(old(cycles), poolCache.value, level, queue)
      ensures Drew(old(cycles), cycles, level, queue, old(puzzleIdx), pick)
      ensures pick.Some? ==> 0 <= pick.value < |poolCache.value| && poolCache.value[pick.value].difficulty == level
      ensures pick.Some? ==> (pick.value == old(puzzleIdx) <==> queue == [old(puzzleIdx)])
    {
      EnsureCycle(level);
      var q := cycles[level];
      queue := q;
      if |q| == 0 {
        pick := None;
      } else {
        assert QueueFits(poolCache, q, level);
        DrawAvoidsCurrent(q, puzzleIdx);
        var p := ShiftCycle(level);
        UpdateTwice(old(cycles), level, q, q[Shifts(q, puzzleIdx)..]);
        pick := Some(p);
      }
    }

    /**
     * `loadRandomPuzzleByDifficulty`: an unknown level changes nothing; for a
     * known one, draw from its queue and load the drawn position. The drawn
     * position is the loaded puzzle only when it was the last in its queue.
     */
    method LoadRandomPuzzleByDifficulty(level: string) returns (pick: Option<int>, ghost queue: seq<int>)
      requires Valid()
      modifies this
      ensures Valid()
      ensures level !in Levels ==>
        pick.None? && BoardKept() && poolCache == old(poolCache) && cycles == old(cycles)
        && puzzleIdx == old(puzzleIdx) && draws == old(draws)
      ensures level in Levels ==>
        && poolCache.Some? && (old(poolCache).Some? ==> poolCache == old(poolCache))
        && Refilled(old(cycles), poolCache.value, level, queue)
        && Drew(old(cycles), cycles, level, queue, old(puzzleIdx), pick)
      ensures pick.Some? ==> (pick.value == old(puzzleIdx) <==> queue == [old(puzzleIdx)])
      ensures pick.None? ==> BoardKept() && puzzleIdx == old(puzzleIdx)
      ensures pick.Some? ==>
        && poolCache.Some? && 0 <= pick.value < |poolCache.value|
        && poolCache.value[pick.value].difficulty == level
        && puzzleIdx == pick.value
        && given[..] == Cells(poolCache.value[pick.value].grid) && values[..] == given[..]
        && (forall i :: 0 <= i < CellCount ==> notes[i] == 0)
        && selectedIdx == -1
    {
      if level != "Easy" && level != "Medium" && level != "Hard" {
        pick, queue := None, [];
      } else {
        pick, queue := DrawFromCycle(level);
        if pick.Some? {
          var loaded := LoadPuzzle(pick.value);
        }
      }
    }

    /** `resetPuzzle`: fresh copies of the snapshot become the values and notes. */
    method ResetPuzzle()
      requires Valid()
      modifies this
      ensures Valid()
      ensures fresh(values) && fresh(notes)
      ensures values[..] == old(initialValues[..]) && notes[..] == old(initialNotes[..])
      ensures given == old(given) && initialValues == old(initialValues) && initialNotes == old(initialNotes)
      ensures selectedIdx == old(selectedIdx) && puzzleIdx == old(puzzleIdx)
      ensures poolCache == old(poolCache) && cycles == old(cycles) && draws == old(draws)
    {
      var savedValues, savedNotes := initialValues[..], initialNotes[..];
      values := new int[CellCount](i requires 0 <= i < CellCount => savedValues[i]);
      notes := new bv16[CellCount](i requires 0 <= i < CellCount => savedNotes[i]);
      assert values[..] == initialValues[..];
      assert notes[..] == initialNotes[..];
    }

    /**
     * `setValueAt`: on an editable cell, store the digit truncated to an
     * integer and clamped to 0..9; a non-zero digit also clears the cell's notes.
     */
    method SetValueAt(idx: int, digit: int)
      requires Valid()
      modifies values, notes
      ensures Valid()
      ensures !old(IsEditable(idx)) ==> values[..] == old(values[..]) && notes[..] == old(notes[..])
      ensures old(IsEditable(idx)) ==>
        var d := Clamp(ToInt32(digit));
        && values[..] == old(values[..])[idx := d]
        && notes[..] == (if d != 0 then old(notes[..])[idx := 0] else old(notes[..]))
    {
      if !IsEditable(idx) {
        return;
      }
      var d := Clamp(ToInt32(digit));
      values[idx] := d;
      if d != 0 {
        notes[idx] := 0;
      }
      assert given[..] == old(given[..]) && initialValues[..] == old(initialValues[..]);
    }

    /**
     * `toggleNoteAt`: on an editable cell without a value, flip the bit of
     * pencil mark d when d (the digit truncated to an integer) is in 1..9.
     */
    method ToggleNoteAt(idx: int, digit: int)
      requires Valid()
      modifies notes
      ensures Valid()
      ensures var d := ToInt32(digit);
        if old(IsEditable(idx)) && 1 <= d <= 9 && values[idx] == 0
        then notes[..] == old(notes[..])[idx := old(notes[idx]) ^ NoteBit(d)]
        else notes[..] == old(notes[..])
    {
      if !IsEditable(idx) {
        return;
      }
      var d := ToInt32(digit);
      if d < 1 || d > 9 {
        return;
      }
      if values[idx] != 0 {
        return;
      }
      FlipNote(notes[idx], d);
      notes[idx] := notes[idx] ^ NoteBit(d);
    }

    /** `clearCell`: on an editable cell, remove the value and the notes. */
    method ClearCell(idx: int)
      requires Valid()
      modifies values, notes
      ensures Valid()
      ensures !old(IsEditable(idx)) ==> values[..] == old(values[..]) && notes[..] == old(notes[..])
      ensures old(IsEditable(idx)) ==>
        values[..] == old(values[..])[idx := 0] && notes[..] == old(notes[..])[idx := 0]
    {
      if !IsEditable(idx) {
        return;
      }
      values[idx] := 0;
      notes[idx] := 0;
    }

    /** `selectCell`: an index off the board deselects. */
    method SelectCell(idx: int)
      requires Valid()
      modifies this
      ensures Valid()
      ensures selectedIdx == (if 0 <= idx < CellCount then idx else -1)
      ensures given == old(given) && values == old(values) && notes == old(notes)
      ensures initialValues == old(initialValues) && initialNotes == old(initialNotes)
      ensures puzzleIdx == old(puzzleIdx) && poolCache == old(poolCache) && cycles == old(cycles)
      ensures draws == old(draws)
    {
      if idx < 0 || idx >= CellCount {
        selectedIdx := -1;
        return;
      }
      selectedIdx := idx;
    }

    /**
     * `moveSelection`: with a cell selected, select the cell dr rows and dc
     * columns away when that is on the board; otherwise keep the selection.
     */
    method MoveSelection(dr: int, dc: int)
      requires Valid()
      modifies this
      ensures Valid()
      ensures old(selectedIdx) == -1 || !InBounds(Row(old(selectedIdx)) + dr, Col(old(selectedIdx)) + dc) ==>
        selectedIdx == old(selectedIdx)
      ensures old(selectedIdx) != -1 && InBounds(Row(old(selectedIdx)) + dr, Col(old(selectedIdx)) + dc) ==>
        0 <= selectedIdx < CellCount &&
        IdxToRC(selectedIdx) == Cell(Row(old(selectedIdx)) + dr, Col(old(selectedIdx)) + dc)
      ensures given == old(given) && values == old(values) && notes == old(notes)
      ensures initialValues == old(initialValues) && initialNotes == old(initialNotes)
      ensures puzzleIdx == old(puzzleIdx) && poolCache == old(poolCache) && cycles == old(cycles)
      ensures draws == old(draws)
    {
      if selectedIdx == -1 {
        return;
      }
      var rc := IdxToRC(selectedIdx);
      var nr := rc.r + dr;
      var nc := rc.c + dc;
      if !InBounds(nr, nc) {
        return;
      }
      RcIdxRoundTrip(0, nr, nc);
      SelectCell(RcToIdx(nr, nc));
    }

    /**
     * `handleDigit`, with the notes toggle passed in: on a selected editable
     * cell, toggle the pencil mark in notes mode and set the value otherwise.
     */
    method HandleDigit(digit: int, notesMode: bool)
      requires Valid()
      modifies values, notes
      ensures Valid()
      ensures selectedIdx == -1 || !old(IsEditable(selectedIdx)) ==>
        values[..] == old(values[..]) && notes[..] == old(notes[..])
      ensures selectedIdx != -1 && old(IsEditable(selectedIdx)) && notesMode ==>
        var d := ToInt32(digit);
        && values[..] == old(values[..])
        && if 1 <= d <= 9 && values[selectedIdx] == 0
           then notes[..] == old(notes[..])[selectedIdx := old(notes[selectedIdx]) ^ NoteBit(d)]
           else notes[..] == old(notes[..])
      ensures selectedIdx != -1 && old(IsEditable(selectedIdx)) && !notesMode ==>
        var d := Clamp(ToInt32(digit));
        && values[..] == old(values[..])[selectedIdx := d]
        && notes[..] == (if d != 0 then old(notes[..])[selectedIdx := 0] else old(notes[..]))
    {
      if selectedIdx == -1 {
        return;
      }
      if !IsEditable(selectedIdx) {
        return;
      }
      if notesMode {
        ToggleNoteAt(selectedIdx, digit);
        return;
      }
      SetValueAt(selectedIdx, digit);
    }

    /**
     * `handleErase`: on a selected editable cell, remove the value if there is
     * one and the notes otherwise.
     */
    method HandleErase()
      requires Valid()
      modifies values, notes
      ensures Valid()
      ensures selectedIdx == -1 || !old(IsEditable(selectedIdx)) ==>
        values[..] == old(values[..]) && notes[..] == old(notes[..])
      ensures selectedIdx != -1 && old(IsEditable(selectedIdx)) ==>
        if old(values[selectedIdx]) != 0
        then values[..] == old(values[..])[selectedIdx := 0] && notes[..] == old(notes[..])
        else values[..] == old(values[..]) && notes[..] == old(notes[..])[selectedIdx := 0]
    {
      if selectedIdx == -1 {
        return;
      }
      if !IsEditable(selectedIdx) {
        return;
      }
      if values[selectedIdx] != 0 {
        values[selectedIdx] := 0;
      } else {
        notes[selectedIdx] := 0;
      }
    }

    /** The editable cells are exactly the cells the loaded puzzle left blank. */
    lemma EditableIffBlankInPuzzle(idx: int)
      requires Valid()
      ensures IsEditable(idx) <==> 0 <= idx < CellCount && initialValues[idx] == 0
    {
      if 0 <= idx < CellCount {
        assert initialValues[idx] == initialValues[..][idx] == given[..][idx];
      }
    }

    /** `computeConflicts` on the current board: a cell is flagged exactly when it repeats a digit of one of its units. */
    method ComputeConflicts() returns (conflict: seq<bool>)
      requires Valid()
      ensures |conflict| == CellCount
      ensures forall i :: 0 <= i < CellCount ==> (conflict[i] <==> Flagged(values[..], i))
    {
      conflict := ConflictEngine.ComputeConflicts(values[..]);
    }

    /** `isCompleteAndValid` on the current board: the first empty or flagged cell in index order decides the reason. */
    method IsCompleteAndValid() returns (res: Verdict)
      requires Valid()
      ensures res.ok <==> (forall i :: 0 <= i < CellCount ==> values[i] != 0) && !HasConflict(values[..])
      ensures res.ok <==> res.reason == Solved
      ensures res.reason == Incomplete <==>
        exists i :: 0 <= i < CellCount && values[i] == 0 && NoProblemBefore(values[..], i)
      ensures res.reason == Conflicts <==>
        exists i :: 0 <= i < CellCount && values[i] != 0 && Flagged(values[..], i) && NoProblemBefore(values[..], i)
    {
      res := ConflictEngine.IsCompleteAndValid(values[..]);
    }
  }
}
