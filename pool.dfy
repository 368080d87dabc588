/**
 * The puzzle pool: the seed table, `getPuzzlePool`'s build (seeds grouped by
 * difficulty, each difficulty grown with deduplicated symmetry variants up to
 * six entries or 500 attempts) and `puzzleIndexesByDifficulty`.
 */
module Pool {
  import opened Grid
  import opened Shuffle
  import opened ConflictEngine
  import opened Transform

  /** A puzzle: identity, difficulty label and grid string. */
  datatype Puzzle = Puzzle(id: string, difficulty: string, grid: string)

  const TargetPerDifficulty: int := 6
  const MaxAttempts: int := 500

  /** The recognised difficulties, in pool order. */
  const Levels: seq<string> := ["Easy", "Medium", "Hard"]

  /** The compiled-in seed table `PUZZLES`. */
  const Seeds: seq<Puzzle> := [
    Puzzle("easy-1", "Easy",
      "53..7...." + "6..195..." + ".98....6." + "8...6...3" + "4..8.3..1" +
      "7...2...6" + ".6....28." + "...419..5" + "....8..79"),
    Puzzle("easy-2", "Easy",
      "9.3.4...8" + "4.....3.." + "..8.7...." + ".7.....4." + "...8.3..." +
      ".5.....1." + "....2.8.." + "..3.....6" + "1...5.7.2"),
    Puzzle("medium-1", "Medium",
      "..3.2.6.." + "9..3.5..1" + "..18.64.." + "..81.29.." + "7.......8" +
      "..67.82.." + "..26.95.." + "8..2.3..9" + "..5.1.3.."),
    Puzzle("medium-2", "Medium",
      ".4.1....." + "1.....2.9" + "6..8.5..2" + "..4..1..." + ".2.....3." +
      "...5..4.." + "7..9.3..5" + "8.3.....6" + ".....7.1."),
    Puzzle("hard-1", "Hard",
      "1....7.9." + ".3..2...8" + "..96..5.." + "..53..9.." + ".1..8...2" +
      "6....4..." + "3......1." + ".4......7" + "..7...3.."),
    Puzzle("hard-2", "Hard",
      "..5.3...." + "8.......9" + ".....6.2." + ".2.4.3.7." + "..3.8.5.." +
      ".1.7.9.4." + ".4.1....." + "2.......8" + "....5.9..")
  ]

  /** Shape the seed data must have: a puzzle of a recognised difficulty has a well-formed grid. */
  predicate SeedShape(seeds: seq<Puzzle>) {
    forall k :: 0 <= k < |seeds| && seeds[k].difficulty in Levels ==> ValidGrid(seeds[k].grid)
  }

  /** Every character is '.' or a digit 1..9. */
  predicate AllGridChars(s: string) {
    forall i :: 0 <= i < |s| ==> IsGridChar(s[i])
  }

  lemma AppendGridChars(a: string, b: string)
    requires AllGridChars(a) && AllGridChars(b)
    ensures AllGridChars(a + b)
  {
  }

  /** A row of nine grid characters, checked position by position. */
  predicate RowOk(s: string) {
    && |s| == 9
    && IsGridChar(s[0]) && IsGridChar(s[1]) && IsGridChar(s[2])
    && IsGridChar(s[3]) && IsGridChar(s[4]) && IsGridChar(s[5])
    && IsGridChar(s[6]) && IsGridChar(s[7]) && IsGridChar(s[8])
  }

  /** Nine well-formed rows concatenate to a well-formed grid. */
  lemma GridOfRows(r0: string, r1: string, r2: string, r3: string, r4: string,
                   r5: string, r6: string, r7: string, r8: string)
    requires RowOk(r0) && RowOk(r1) && RowOk(r2) && RowOk(r3) && RowOk(r4)
    requires RowOk(r5) && RowOk(r6) && RowOk(r7) && RowOk(r8)
    ensures ValidGrid(r0 + r1 + r2 + r3 + r4 + r5 + r6 + r7 + r8)
  {
    AppendGridChars(r0, r1);
    AppendGridChars(r0 + r1, r2);
    AppendGridChars(r0 + r1 + r2, r3);
    AppendGridChars(r0 + r1 + r2 + r3, r4);
    AppendGridChars(r0 + r1 + r2 + r3 + r4, r5);
    AppendGridChars(r0 + r1 + r2 + r3 + r4 + r5, r6);
    AppendGridChars(r0 + r1 + r2 + r3 + r4 + r5 + r6, r7);
    AppendGridChars(r0 + r1 + r2 + r3 + r4 + r5 + r6 + r7, r8);
  }

  /** The seed table has the required shape. */
  lemma SeedsWellFormed()
    ensures SeedShape(Seeds)
  {
    EasyMediumSeedGrids();
    HardSeedGrids();
  }

  lemma EasyMediumSeedGrids()
    ensures forall k :: 0 <= k < 4 ==> ValidGrid(Seeds[k].grid)
  {
    GridOfRows("53..7....", "6..195...", ".98....6.", "8...6...3", "4..8.3..1", "7...2...6", ".6....28.", "...419..5", "....8..79");
    GridOfRows("9.3.4...8", "4.....3..", "..8.7....", ".7.....4.", "...8.3...", ".5.....1.", "....2.8..", "..3.....6", "1...5.7.2");
    GridOfRows("..3.2.6..", "9..3.5..1", "..18.64..", "..81.29..", "7.......8", "..67.82..", "..26.95..", "8..2.3..9", "..5.1.3..");
    GridOfRows(".4.1.....", "1.....2.9", "6..8.5..2", "..4..1...", ".2.....3.", "...5..4..", "7..9.3..5", "8.3.....6", ".....7.1.");
  }

  lemma HardSeedGrids()
    ensures forall k :: 4 <= k < 6 ==> ValidGrid(Seeds[k].grid)
  {
    GridOfRows("1....7.9.", ".3..2...8", "..96..5..", "..53..9..", ".1..8...2", "6....4...", "3......1.", ".4......7", "..7...3..");
    GridOfRows("..5.3....", "8.......9", ".....6.2.", ".2.4.3.7.", "..3.8.5..", ".1.7.9.4.", ".4.1.....", "2.......8", "....5.9..");
  }

  /** Position of a difficulty in `Levels`, or -1 when it is not recognised. */
  function LevelRank(d: string): (r: int)
    ensures -1 <= r < |Levels|
    ensures r >= 0 <==> d in Levels
    ensures r >= 0 ==> Levels[r] == d
  {
    if d == "Easy" then 0 else if d == "Medium" then 1 else if d == "Hard" then 2 else -1
  }

  /** A grid the pool may hold: well-formed, with no two equal givens in a unit. */
  ghost predicate Playable(g: string) {
    ValidGrid(g) && !HasConflict(Cells(g))
  }

  /**
   * The seeds the first pass keeps for `level`, in table order: those of a
   * recognised difficulty equal to `level` whose grid has no given conflict.
   */
  ghost function SeedsOf(seeds: seq<Puzzle>, level: string): (kept: seq<Puzzle>)
    ensures |kept| <= |seeds|
    ensures forall k :: 0 <= k < |kept| ==> kept[k] in seeds
    ensures forall k :: 0 <= k < |kept| ==> kept[k].difficulty == level
    ensures |kept| > 0 ==> level in Levels
    ensures forall k :: 0 <= k < |kept| ==> Playable(kept[k].grid)
    decreases |seeds|
  {
    if |seeds| == 0 then []
    else
      var last := seeds[|seeds| - 1];
      var rest := SeedsOf(seeds[..|seeds| - 1], level);
      if last.difficulty == level && level in Levels && Playable(last.grid) then rest + [last] else rest
  }

  /**
   * First pass of `getPuzzlePool`: each seed of a recognised difficulty whose
   * grid has no given conflict is appended to its difficulty's list.
   */
  method GroupSeeds(seeds: seq<Puzzle>) returns (byDiff: seq<seq<Puzzle>>)
    requires SeedShape(seeds)
    ensures |byDiff| == |Levels|
    ensures forall l :: 0 <= l < |Levels| ==> byDiff[l] == SeedsOf(seeds, Levels[l])
  {
    byDiff := [[], [], []];
    for i := 0 to |seeds|
      invariant |byDiff| == |Levels|
      invariant forall l :: 0 <= l < |Levels| ==> byDiff[l] == SeedsOf(seeds[..i], Levels[l])
    {
      var p := seeds[i];
      assert seeds[..i + 1][..i] == seeds[..i];
      var li := LevelRank(p.difficulty);
      if li >= 0 {
        var bad := GridHasGivenConflicts(p.grid);
        if !bad.value {
          byDiff := byDiff[li := byDiff[li] + [p]];
        }
      }
    }
    assert seeds[..|seeds|] == seeds;
  }

  /** The decimal digit character for 0..9. */
  function DecimalDigit(d: int): (ch: char)
    requires 0 <= d < 10
    ensures '0' <= ch <= '9'
  {
    ('0' as int + d) as char
  }

  /** Decimal notation of a natural number, as a template literal writes it. */
  function NatToString(n: nat): (s: string)
    ensures 1 <= |s| && forall i :: 0 <= i < |s| ==> '0' <= s[i] <= '9'
    ensures |s| > 1 ==> s[0] != '0'
  {
    if n < 10 then [DecimalDigit(n)] else NatToString(n / 10) + [DecimalDigit(n % 10)]
  }

  /** The number a string of decimal digits denotes, most significant digit first. */
  function DecimalValue(s: string): nat
    requires forall i :: 0 <= i < |s| ==> '0' <= s[i] <= '9'
  {
    if |s| == 0 then 0 else DecimalValue(s[..|s| - 1]) * 10 + (s[|s| - 1] as int - '0' as int)
  }

  /** Reading the decimal notation back gives the number. */
  lemma {:induction false} NatToStringValue(n: nat)
    ensures DecimalValue(NatToString(n)) == n
  {
    if n >= 10 {
      var s := NatToString(n);
      NatToStringValue(n / 10);
      assert s[..|s| - 1] == NatToString(n / 10);
    }
  }

  /** Distinct numbers have distinct decimal notations, so the variant ids `-v1`, `-v2`, ... differ. */
  lemma NatToStringInjective(a: nat, b: nat)
    ensures NatToString(a) == NatToString(b) ==> a == b
  {
    if NatToString(a) == NatToString(b) {
      NatToStringValue(a);
      NatToStringValue(b);
    }
  }

  /** `v` is `g` under some band-preserving row and column shuffle and digit relabelling. */
  ghost predicate IsVariantOf(v: string, g: string) {
    ValidGrid(g) &&
    exists rowPerm, colPerm, digits ::
      BandPerm(rowPerm) && BandPerm(colPerm) && DigitBijection(digits) &&
      v == Transformed(g, rowPerm, colPerm, digits)
  }

  /**
   * Entry k of a grown difficulty list is a generated variant: labelled with the
   * level, playable, named after a base puzzle it was derived from with suffix
   * "-v" and its own 1-based position, and with a grid no earlier entry has.
   */
  ghost predicate FreshVariant(part: seq<Puzzle>, base: seq<Puzzle>, level: string, k: int)
    requires 0 <= k < |part|
  {
    && part[k].difficulty == level
    && Playable(part[k].grid)
    && (exists b :: 0 <= b < |base| &&
          part[k].id == base[b].id + "-v" + NatToString(k + 1) && IsVariantOf(part[k].grid, base[b].grid))
    && forall j :: 0 <= j < k ==> part[j].grid != part[k].grid
  }

  /** `part` is `base` followed by fresh variants, and growth stops at the target size. */
  ghost predicate GrownFrom(part: seq<Puzzle>, base: seq<Puzzle>, level: string) {
    && |base| <= |part|
    && (|part| <= TargetPerDifficulty || |part| == |base|)
    && part[..|base|] == base
    && forall k :: |base| <= k < |part| ==> FreshVariant(part, base, level, k)
  }

  /** The grids of a list of puzzles, as the `seen` set holds them. */
  function GridsOf(part: seq<Puzzle>): (grids: set<string>)
    ensures forall j :: 0 <= j < |part| ==> part[j].grid in grids
    ensures forall g :: g in grids ==> exists j :: 0 <= j < |part| && part[j].grid == g
  {
    set p | p in part :: p.grid
  }

  /** Draws one symmetry variant attempt takes from the random stream. */
  const DrawsPerAttempt: int := 25

  /**
   * Second pass of `getPuzzlePool` for one difficulty: while the list is short
   * of the target, the base list is non-empty and fewer than 500 attempts were
   * made, transform a randomly chosen base puzzle and keep the variant when its
   * grid is new and has no given conflict.
   */
  method GrowLevel(base: seq<Puzzle>, level: string, rand: nat -> nat, pos: nat)
    returns (part: seq<Puzzle>, next: nat, ghost attempts: nat)
    requires forall k :: 0 <= k < |base| ==> ValidGrid(base[k].grid)
    ensures GrownFrom(part, base, level)
    ensures attempts <= MaxAttempts
    ensures |part| < TargetPerDifficulty && |base| > 0 ==> attempts == MaxAttempts
    ensures |base| == 0 ==> attempts == 0
    ensures next == pos + attempts * DrawsPerAttempt
  {
    part := base;
    var seen := GridsOf(base);
    var tries := 0;
    next := pos;
    while |part| < TargetPerDifficulty && |base| > 0 && tries < MaxAttempts
      invariant 0 <= tries <= MaxAttempts
      invariant |base| == 0 ==> tries == 0
      invariant next == pos + tries * DrawsPerAttempt
      invariant seen == GridsOf(part)
      invariant GrownFrom(part, base, level)
    {
      tries := tries + 1;
      var b := Below(rand, next, |base|);
      var variant, n, rowPerm, colPerm, digits := TransformPuzzleGrid(base[b].grid, rand, next + 1);
      next := n;
      if variant in seen {
        continue;
      }
      var bad := GridHasGivenConflicts(variant);
      if bad.value {
        continue;
      }
      var entry := Puzzle(base[b].id + "-v" + NatToString(|part| + 1), level, variant);
      assert IsVariantOf(variant, base[b].grid) by {
        assert BandPerm(rowPerm) && BandPerm(colPerm) && DigitBijection(digits);
        assert variant == Transformed(base[b].grid, rowPerm, colPerm, digits);
      }
      PushVariant(part, base, level, entry, b);
      seen := seen + {variant};
      part := part + [entry];
    }
    attempts := tries;
  }

  /** Appending a fresh variant below the target keeps a list grown from `base`. */
  lemma PushVariant(part: seq<Puzzle>, base: seq<Puzzle>, level: string, entry: Puzzle, b: int)
    requires GrownFrom(part, base, level) && |part| < TargetPerDifficulty
    requires 0 <= b < |base| && entry.id == base[b].id + "-v" + NatToString(|part| + 1)
    requires entry.difficulty == level && Playable(entry.grid) && IsVariantOf(entry.grid, base[b].grid)
    requires entry.grid !in GridsOf(part)
    ensures GrownFrom(part + [entry], base, level)
    ensures GridsOf(part + [entry]) == GridsOf(part) + {entry.grid}
  {
    var grown := part + [entry];
    assert grown[..|base|] == part[..|base|];
    forall k | |base| <= k < |grown| ensures FreshVariant(grown, base, level, k) {
      if k < |part| {
        FreshVariantPrefix(part, grown, base, level, k);
      } else {
        LastVariantFresh(part, grown, base, level, entry, b, k);
      }
    }
    GridsOfAppend(part, entry);
  }

  /** The appended variant is itself fresh. */
  lemma LastVariantFresh(part: seq<Puzzle>, grown: seq<Puzzle>, base: seq<Puzzle>, level: string, entry: Puzzle, b: int, k: int)
    requires grown == part + [entry] && k == |part|
    requires 0 <= b < |base| && entry.id == base[b].id + "-v" + NatToString(|part| + 1)
    requires entry.difficulty == level && Playable(entry.grid) && IsVariantOf(entry.grid, base[b].grid)
    requires entry.grid !in GridsOf(part)
    ensures FreshVariant(grown, base, level, k)
  {
    assert grown[|part|] == entry;
    forall j | 0 <= j < |part| ensures grown[j].grid != entry.grid {
      assert grown[j] == part[j];
    }
  }

  /** The grids of a list with one more entry. */
  lemma GridsOfAppend(part: seq<Puzzle>, entry: Puzzle)
    ensures GridsOf(part + [entry]) == GridsOf(part) + {entry.grid}
  {
    var grown := part + [entry];
    forall g | g in GridsOf(grown) ensures g in GridsOf(part) + {entry.grid} {
      var j :| 0 <= j < |grown| && grown[j].grid == g;
      if j < |part| { assert grown[j] == part[j]; }
    }
  }

  /** Freshness of an entry depends only on the entries up to it. */
  lemma FreshVariantPrefix(part: seq<Puzzle>, grown: seq<Puzzle>, base: seq<Puzzle>, level: string, k: int)
    requires 0 <= k < |part| <= |grown| && grown[..|part|] == part
    requires FreshVariant(part, base, level, k)
    ensures FreshVariant(grown, base, level, k)
  {
    assert forall j :: 0 <= j <= k ==> grown[j] == part[j];
  }

  /**
   * The shape of a built pool: every entry has a recognised difficulty and a
   * playable grid, and the difficulties come in contiguous runs in the order
   * Easy, Medium, Hard.
   */
  ghost predicate PoolShape(pool: seq<Puzzle>) {
    && (forall i :: 0 <= i < |pool| ==> pool[i].difficulty in Levels && Playable(pool[i].grid))
    && (forall i, j :: 0 <= i < j < |pool| ==> LevelRank(pool[i].difficulty) <= LevelRank(pool[j].difficulty))
  }

  /** Every entry of a list grown from uniform, playable seeds is uniform and playable. */
  lemma GrownUniform(part: seq<Puzzle>, base: seq<Puzzle>, level: string)
    requires GrownFrom(part, base, level)
    requires forall k :: 0 <= k < |base| ==> base[k].difficulty == level && Playable(base[k].grid)
    ensures forall k :: 0 <= k < |part| ==> part[k].difficulty == level && Playable(part[k].grid)
  {
    forall k | 0 <= k < |part| ensures part[k].difficulty == level && Playable(part[k].grid) {
      if k < |base| {
        assert part[k] == part[..|base|][k];
      } else {
        assert FreshVariant(part, base, level, k);
      }
    }
  }

  /** Concatenating an Easy list, a Medium list and a Hard list gives a pool of the right shape. */
  lemma ConcatLevels(parts: seq<seq<Puzzle>>)
    requires |parts| == |Levels|
    requires forall l, k :: 0 <= l < |Levels| && 0 <= k < |parts[l]| ==>
      parts[l][k].difficulty == Levels[l] && Playable(parts[l][k].grid)
    ensures PoolShape(parts[0] + parts[1] + parts[2])
  {
    var pool := parts[0] + parts[1] + parts[2];
    var a, b := |parts[0]|, |parts[0]| + |parts[1]|;
    forall i | 0 <= i < |pool|
      ensures LevelRank(pool[i].difficulty) == (if i < a then 0 else if i < b then 1 else 2)
      ensures Playable(pool[i].grid)
    {
      if i < a {
        assert pool[i] == parts[0][i];
      } else if i < b {
        assert pool[i] == parts[1][i - a];
      } else {
        assert pool[i] == parts[2][i - b];
      }
    }
  }

  /**
   * `getPuzzlePool`'s build: group the seeds, grow Easy, Medium and Hard in
   * turn, and concatenate them in that order.
   */
  method BuildPool(seeds: seq<Puzzle>, rand: nat -> nat, pos: nat)
    returns (pool: seq<Puzzle>, next: nat, ghost parts: seq<seq<Puzzle>>)
    requires SeedShape(seeds)
    ensures |parts| == |Levels| && pool == parts[0] + parts[1] + parts[2]
    ensures forall l :: 0 <= l < |Levels| ==> GrownFrom(parts[l], SeedsOf(seeds, Levels[l]), Levels[l])
    ensures PoolShape(pool)
    ensures pos <= next <= pos + |Levels| * MaxAttempts * DrawsPerAttempt
  {
    var byDiff := GroupSeeds(seeds);
    next := pos;
    var grown: seq<seq<Puzzle>> := [];
    for l := 0 to |Levels|
      invariant |grown| == l
      invariant forall m :: 0 <= m < l ==> GrownFrom(grown[m], byDiff[m], Levels[m])
      invariant pos <= next <= pos + l * MaxAttempts * DrawsPerAttempt
    {
      var part, n, attempts := GrowLevel(byDiff[l], Levels[l], rand, next);
      grown := grown + [part];
      next := n;
    }
    pool := grown[0] + grown[1] + grown[2];
    parts := grown;
    forall l | 0 <= l < |Levels|
      ensures forall k :: 0 <= k < |parts[l]| ==> parts[l][k].difficulty == Levels[l] && Playable(parts[l][k].grid)
    {
      GrownUniform(parts[l], byDiff[l], Levels[l]);
    }
    ConcatLevels(parts);
  }

  /** The positions of the pool entries labelled `level`, in increasing order. */
  function LevelIndexes(pool: seq<Puzzle>, level: string): (idx: seq<int>)
    ensures forall k :: 0 <= k < |idx| ==> 0 <= idx[k] < |pool| && pool[idx[k]].difficulty == level
    ensures forall i :: 0 <= i < |pool| && pool[i].difficulty == level ==> i in idx
    ensures forall k, m :: 0 <= k < m < |idx| ==> idx[k] < idx[m]
    decreases |pool|
  {
    if |pool| == 0 then []
    else
      var rest := LevelIndexes(pool[..|pool| - 1], level);
      if pool[|pool| - 1].difficulty == level then rest + [|pool| - 1] else rest
  }

  /** `puzzleIndexesByDifficulty` over a given pool: scan it and collect the matching positions. */
  method IndexesByDifficulty(pool: seq<Puzzle>, level: string) returns (out: seq<int>)
    ensures out == LevelIndexes(pool, level)
  {
    out := [];
    for i := 0 to |pool|
      invariant out == LevelIndexes(pool[..i], level)
    {
      assert pool[..i + 1][..i] == pool[..i];
      if pool[i].difficulty == level {
        out := out + [i];
      }
    }
    assert pool[..|pool|] == pool;
  }
}
