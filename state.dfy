/** Properties of a snapshot of a board: the 81 cells `s` (index `y * 9 + x`)
    and the 27 lines' `has` flags `h` (`h[g][d]`: digit `d + 1` is placed in
    line `g`). The board's methods are specified in these terms. */
module State {
  import opened Grid
  import opened Cells

  /** 81 well-formed cells. */
  ghost predicate CellsWf(s: seq<Cell>) {
    |s| == 81 && forall c | 0 <= c < 81 :: Wf(s[c])
  }

  /** 81 well-formed cells and nine flags for each of the 27 lines. */
  ghost predicate Shaped(s: seq<Cell>, h: seq<seq<bool>>) {
    CellsWf(s) && FlagsShaped(h)
  }

  /** Nine flags for each of the 27 lines. */
  ghost predicate FlagsShaped(h: seq<seq<bool>>) {
    |h| == 27 && forall g | 0 <= g < 27 :: |h[g]| == 9
  }

  /** Cell `c`, if filled, has its digit recorded in its three lines. */
  ghost predicate RecordedAt(s: seq<Cell>, h: seq<seq<bool>>, c: nat)
    requires Shaped(s, h) && c < 81
  {
    forall k | 0 <= k < 3 :: s[c].val != 0 ==> h[LineOf(c, k)][s[c].val - 1]
  }

  /** `RecordedAt` for every cell from `n` on. */
  ghost predicate RecordedFrom(s: seq<Cell>, h: seq<seq<bool>>, n: nat)
    requires Shaped(s, h) && n <= 81
    decreases 81 - n
  {
    n == 81 || (RecordedAt(s, h, n) && RecordedFrom(s, h, n + 1))
  }

  /** Every placed digit is recorded in the `has` flags of its three lines. */
  ghost predicate Recorded(s: seq<Cell>, h: seq<seq<bool>>)
    requires Shaped(s, h)
  {
    RecordedFrom(s, h, 0)
  }

  lemma {:induction false} RecordedFromAll(s: seq<Cell>, h: seq<seq<bool>>, n: nat)
    requires Shaped(s, h) && n <= 81
    decreases 81 - n
    ensures RecordedFrom(s, h, n) <==> forall c | n <= c < 81 :: RecordedAt(s, h, c)
  {
    if n < 81 {
      RecordedFromAll(s, h, n + 1);
    }
  }

  /** `Recorded` spelled out. */
  lemma RecordedAll(s: seq<Cell>, h: seq<seq<bool>>)
    requires Shaped(s, h)
    ensures Recorded(s, h) <==> forall c, k | 0 <= c < 81 && 0 <= k < 3 :: s[c].val != 0 ==> h[LineOf(c, k)][s[c].val - 1]
  {
    RecordedFromAll(s, h, 0);
    if Recorded(s, h) {
      forall c, k | 0 <= c < 81 && 0 <= k < 3
        ensures s[c].val != 0 ==> h[LineOf(c, k)][s[c].val - 1]
      {
        assert RecordedAt(s, h, c);
      }
    }
  }

  /** Cell `c`, if empty, lists no digit recorded in one of its lines. */
  ghost predicate ExcludedAt(s: seq<Cell>, h: seq<seq<bool>>, c: nat)
    requires Shaped(s, h) && c < 81
  {
    forall k, d | 0 <= k < 3 && 0 <= d < 9 :: s[c].val == 0 && h[LineOf(c, k)][d] ==> !s[c].canBe[d]
  }

  /** `ExcludedAt` for every cell from `n` on. */
  ghost predicate ExcludedFrom(s: seq<Cell>, h: seq<seq<bool>>, n: nat)
    requires Shaped(s, h) && n <= 81
    decreases 81 - n
  {
    n == 81 || (ExcludedAt(s, h, n) && ExcludedFrom(s, h, n + 1))
  }

  /** An empty cell never lists a digit already recorded in one of its lines. */
  ghost predicate Excluded(s: seq<Cell>, h: seq<seq<bool>>)
    requires Shaped(s, h)
  {
    ExcludedFrom(s, h, 0)
  }

  lemma {:induction false} ExcludedFromAll(s: seq<Cell>, h: seq<seq<bool>>, n: nat)
    requires Shaped(s, h) && n <= 81
    decreases 81 - n
    ensures ExcludedFrom(s, h, n) <==> forall c | n <= c < 81 :: ExcludedAt(s, h, c)
  {
    if n < 81 {
      ExcludedFromAll(s, h, n + 1);
    }
  }

  /** `Excluded` spelled out. */
  lemma ExcludedAll(s: seq<Cell>, h: seq<seq<bool>>)
    requires Shaped(s, h)
    ensures Excluded(s, h) <==> forall c, k, d | 0 <= c < 81 && 0 <= k < 3 && 0 <= d < 9 :: s[c].val == 0 && h[LineOf(c, k)][d] ==> !s[c].canBe[d]
  {
    ExcludedFromAll(s, h, 0);
    if Excluded(s, h) {
      forall c, k, d | 0 <= c < 81 && 0 <= k < 3 && 0 <= d < 9
        ensures s[c].val == 0 && h[LineOf(c, k)][d] ==> !s[c].canBe[d]
      {
        assert ExcludedAt(s, h, c);
      }
    }
  }

  /** Cell `c`, if empty, lacks a candidate only when one of its lines records it. */
  ghost predicate JustifiedAt(s: seq<Cell>, h: seq<seq<bool>>, c: nat)
    requires Shaped(s, h) && c < 81
  {
    forall d | 0 <= d < 9 :: s[c].val == 0 && !s[c].canBe[d] ==> h[LineOf(c, 0)][d] || h[LineOf(c, 1)][d] || h[LineOf(c, 2)][d]
  }

  /** `JustifiedAt` for every cell from `n` on. */
  ghost predicate JustifiedFrom(s: seq<Cell>, h: seq<seq<bool>>, n: nat)
    requires Shaped(s, h) && n <= 81
    decreases 81 - n
  {
    n == 81 || (JustifiedAt(s, h, n) && JustifiedFrom(s, h, n + 1))
  }

  /** An empty cell only loses a candidate once the digit is recorded in one of
      its lines. */
  ghost predicate Justified(s: seq<Cell>, h: seq<seq<bool>>)
    requires Shaped(s, h)
  {
    JustifiedFrom(s, h, 0)
  }

  lemma {:induction false} JustifiedFromAll(s: seq<Cell>, h: seq<seq<bool>>, n: nat)
    requires Shaped(s, h) && n <= 81
    decreases 81 - n
    ensures JustifiedFrom(s, h, n) <==> forall c | n <= c < 81 :: JustifiedAt(s, h, c)
  {
    if n < 81 {
      JustifiedFromAll(s, h, n + 1);
    }
  }

  /** `Justified` spelled out. */
  lemma JustifiedAll(s: seq<Cell>, h: seq<seq<bool>>)
    requires Shaped(s, h)
    ensures Justified(s, h) <==> forall c, d | 0 <= c < 81 && 0 <= d < 9 :: s[c].val == 0 && !s[c].canBe[d] ==> h[LineOf(c, 0)][d] || h[LineOf(c, 1)][d] || h[LineOf(c, 2)][d]
  {
    JustifiedFromAll(s, h, 0);
    if Justified(s, h) {
      forall c, d | 0 <= c < 81 && 0 <= d < 9
        ensures s[c].val == 0 && !s[c].canBe[d] ==> h[LineOf(c, 0)][d] || h[LineOf(c, 1)][d] || h[LineOf(c, 2)][d]
      {
        assert JustifiedAt(s, h, c);
      }
    }
  }

  /** Line `g` records only digits one of its members holds. */
  ghost predicate HasSoundAt(s: seq<Cell>, h: seq<seq<bool>>, g: nat)
    requires Shaped(s, h) && g < 27
  {
    forall d | 0 <= d < 9 :: h[g][d] ==> exists j | 0 <= j < 9 :: s[Member(g, j)].val == d + 1
  }

  /** `HasSoundAt` for every line from `n` on. */
  ghost predicate HasSoundFrom(s: seq<Cell>, h: seq<seq<bool>>, n: nat)
    requires Shaped(s, h) && n <= 27
    decreases 27 - n
  {
    n == 27 || (HasSoundAt(s, h, n) && HasSoundFrom(s, h, n + 1))
  }

  /** A digit is recorded in a line only when a member of the line holds it. */
  ghost predicate HasSound(s: seq<Cell>, h: seq<seq<bool>>)
    requires Shaped(s, h)
  {
    HasSoundFrom(s, h, 0)
  }

  lemma {:induction false} HasSoundFromAll(s: seq<Cell>, h: seq<seq<bool>>, n: nat)
    requires Shaped(s, h) && n <= 27
    decreases 27 - n
    ensures HasSoundFrom(s, h, n) <==> forall g | n <= g < 27 :: HasSoundAt(s, h, g)
  {
    if n < 27 {
      HasSoundFromAll(s, h, n + 1);
    }
  }

  /** `HasSound` spelled out. */
  lemma HasSoundAll(s: seq<Cell>, h: seq<seq<bool>>)
    requires Shaped(s, h)
    ensures HasSound(s, h) <==> forall g, d | 0 <= g < 27 && 0 <= d < 9 :: h[g][d] ==> exists j | 0 <= j < 9 :: s[Member(g, j)].val == d + 1
  {
    HasSoundFromAll(s, h, 0);
    if HasSound(s, h) {
      forall g, d | 0 <= g < 27 && 0 <= d < 9
        ensures h[g][d] ==> exists j | 0 <= j < 9 :: s[Member(g, j)].val == d + 1
      {
        assert HasSoundAt(s, h, g);
      }
    }
  }

  /** The invariant every board keeps between operations. */
  ghost predicate Sound(s: seq<Cell>, h: seq<seq<bool>>) {
    Shaped(s, h) && Recorded(s, h) && Excluded(s, h) && Justified(s, h) && HasSound(s, h)
  }

  /** `Sound` spelled out. */
  lemma SoundAll(s: seq<Cell>, h: seq<seq<bool>>)
    requires Shaped(s, h)
    ensures Recorded(s, h) <==> forall c, k | 0 <= c < 81 && 0 <= k < 3 :: s[c].val != 0 ==> h[LineOf(c, k)][s[c].val - 1]
    ensures Excluded(s, h) <==> forall c, k, d | 0 <= c < 81 && 0 <= k < 3 && 0 <= d < 9 ::
      s[c].val == 0 && h[LineOf(c, k)][d] ==> !s[c].canBe[d]
    ensures Justified(s, h) <==> forall c, d | 0 <= c < 81 && 0 <= d < 9 ::
      s[c].val == 0 && !s[c].canBe[d] ==> h[LineOf(c, 0)][d] || h[LineOf(c, 1)][d] || h[LineOf(c, 2)][d]
    ensures HasSound(s, h) <==> forall g, d | 0 <= g < 27 && 0 <= d < 9 :: h[g][d] ==> exists j | 0 <= j < 9 :: s[Member(g, j)].val == d + 1
  {
    RecordedAll(s, h);
    ExcludedAll(s, h);
    JustifiedAll(s, h);
    HasSoundAll(s, h);
  }

  /** The cells whose `assign` is in progress are filled. */
  ghost predicate Busy(s: seq<Cell>, busy: set<nat>)
    requires |s| == 81
  {
    forall b | b in busy :: b < 81 && s[b].val != 0
  }

  /** The empty cells left with exactly one candidate. */
  ghost function NakedSingles(s: seq<Cell>): set<nat>
    requires |s| == 81
  {
    set e | 0 <= e < 81 && s[e].val == 0 && s[e].count == 1
  }

  /** The members of line `g`. */
  ghost function LineSet(g: nat): set<nat> {
    set e | 0 <= e < 81 && InLine(e, g)
  }

  /** Line `g` still lacks digit `d + 1` and no member can take it. */
  ghost predicate Blocked(s: seq<Cell>, h: seq<seq<bool>>, g: nat, d: nat)
    requires Shaped(s, h) && g < 27 && d < 9
  {
    !h[g][d] && forall j | 0 <= j < 9 :: !s[Member(g, j)].canBe[d]
  }

  /** At least two members of line `g` can take digit `d + 1`. */
  ghost predicate TwoHolders(s: seq<Cell>, g: nat, d: nat)
    requires CellsWf(s) && g < 27 && d < 9
  {
    exists p, q | 0 <= p < q < 9 :: s[Member(g, p)].canBe[d] && s[Member(g, q)].canBe[d]
  }

  /** Line `g` has no hidden single: every digit it lacks fits in two members. */
  ghost predicate NoHiddenSingle(s: seq<Cell>, h: seq<seq<bool>>, g: nat)
    requires Shaped(s, h) && g < 27
  {
    forall d | 0 <= d < 9 :: h[g][d] || TwoHolders(s, g, d)
  }

  /** Every filled cell outside `busy` has had its candidates cleared; the cells
      in `busy` are those whose `assign` is still cascading. */
  ghost predicate SettledExcept(s: seq<Cell>, busy: set<nat>)
    requires CellsWf(s)
  {
    forall c, d | 0 <= c < 81 && c !in busy && 0 <= d < 9 :: s[c].val != 0 ==> !s[c].canBe[d]
  }

  ghost predicate Settled(s: seq<Cell>)
    requires CellsWf(s)
  {
    SettledExcept(s, {})
  }

  /** Cell `c` holds no digit that one of its peers also holds. */
  ghost predicate Unclashed(s: seq<Cell>, c: nat)
    requires |s| == 81 && c < 81
  {
    forall e {:trigger Peers(c, e)} | 0 <= e < 81 && e != c && Peers(c, e) :: s[c].val != 0 ==> s[c].val != s[e].val
  }

  /** Cells `c`..80 clash with no peer. */
  ghost predicate UnclashedFrom(s: seq<Cell>, c: nat)
    requires |s| == 81 && c <= 81
    decreases 81 - c
  {
    c == 81 || (Unclashed(s, c) && UnclashedFrom(s, c + 1))
  }

  /** No two cells of one row, column or square hold the same digit. */
  ghost predicate Consistent(s: seq<Cell>)
    requires |s| == 81
  {
    UnclashedFrom(s, 0)
  }

  lemma {:induction false} UnclashedFromAll(s: seq<Cell>, c: nat)
    requires |s| == 81 && c <= 81
    decreases 81 - c
    ensures UnclashedFrom(s, c) <==> forall c' | c <= c' < 81 :: Unclashed(s, c')
  {
    if c < 81 {
      UnclashedFromAll(s, c + 1);
    }
  }

  /** `Consistent` cell by cell. */
  lemma ConsistentAll(s: seq<Cell>)
    requires |s| == 81
    ensures Consistent(s) <==> forall c | 0 <= c < 81 :: Unclashed(s, c)
  {
    UnclashedFromAll(s, 0);
  }

  /** Every cell keeps its value. */
  ghost predicate SameVals(s0: seq<Cell>, s: seq<Cell>)
    requires |s0| == 81 && |s| == 81
  {
    forall e | 0 <= e < 81 :: s[e].val == s0[e].val
  }

  /** Every filled cell keeps its value. */
  ghost predicate Kept(s0: seq<Cell>, s: seq<Cell>)
    requires |s0| == 81 && |s| == 81
  {
    forall e | 0 <= e < 81 :: s0[e].val != 0 ==> s[e].val == s0[e].val
  }

  /** No cell gains a candidate. */
  ghost predicate Shrunk(s0: seq<Cell>, s: seq<Cell>)
    requires CellsWf(s0) && CellsWf(s)
  {
    forall e, d | 0 <= e < 81 && 0 <= d < 9 :: s[e].canBe[d] ==> s0[e].canBe[d]
  }

  /** No line loses a recorded digit. */
  ghost predicate HasGrown(h0: seq<seq<bool>>, h: seq<seq<bool>>)
    requires FlagsShaped(h0) && FlagsShaped(h)
  {
    forall g, d | 0 <= g < 27 && 0 <= d < 9 :: h0[g][d] ==> h[g][d]
  }

  /** What `Line.cant_be` may do to a board: strike candidates and raise
      `has` flags, and nothing else. */
  ghost predicate Struck(s0: seq<Cell>, h0: seq<seq<bool>>, s: seq<Cell>, h: seq<seq<bool>>)
    requires Shaped(s0, h0) && Shaped(s, h)
  {
    SameVals(s0, s) && Shrunk(s0, s) && HasGrown(h0, h)
  }

  /** What any operation may do to a board: fill empty cells, strike candidates,
      raise `has` flags, and nothing else. */
  ghost predicate Grows(s0: seq<Cell>, h0: seq<seq<bool>>, s: seq<Cell>, h: seq<seq<bool>>)
    requires Shaped(s0, h0) && Shaped(s, h)
  {
    Kept(s0, s) && Shrunk(s0, s) && HasGrown(h0, h)
  }

  /** Every cell filled since `s0` took one of the candidates it had in `s0`. */
  ghost predicate Placed(s0: seq<Cell>, s: seq<Cell>)
    requires CellsWf(s0) && CellsWf(s)
  {
    forall e | 0 <= e < 81 && s0[e].val == 0 && s[e].val != 0 :: s0[e].canBe[s[e].val - 1]
  }

  /** `Placed` composes along a board that only grew. */
  lemma PlacedTrans(s0: seq<Cell>, s1: seq<Cell>, s: seq<Cell>)
    requires CellsWf(s0) && CellsWf(s1) && CellsWf(s)
    requires Shrunk(s0, s1) && Kept(s1, s) && Placed(s0, s1) && Placed(s1, s)
    ensures Placed(s0, s)
  {
  }

  /** What the cascade of `assign` calls does to a board: it only grows, it
      fills cells only with their candidates, and it keeps a consistent board
      consistent and every solution a solution. */
  ghost predicate Cascaded(s0: seq<Cell>, h0: seq<seq<bool>>, s: seq<Cell>, h: seq<seq<bool>>, sol: seq<seq<int>>)
    requires Shaped(s0, h0) && Shaped(s, h)
  {
    && Grows(s0, h0, s, h)
    && Placed(s0, s)
    && Empty(s) <= Empty(s0)
    && (Consistent(s0) ==> Consistent(s))
    && (Completes(sol, s0) ==> Completes(sol, s))
  }

  lemma CascadedTrans(s0: seq<Cell>, h0: seq<seq<bool>>, s1: seq<Cell>, h1: seq<seq<bool>>, s: seq<Cell>, h: seq<seq<bool>>,
                      sol: seq<seq<int>>)
    requires Shaped(s0, h0) && Shaped(s1, h1) && Shaped(s, h)
    requires Cascaded(s0, h0, s1, h1, sol) && Cascaded(s1, h1, s, h, sol)
    ensures Cascaded(s0, h0, s, h, sol)
  {
    PlacedTrans(s0, s1, s);
  }

  /** The board after `Cell.check_possibilities` has given cell `e` its only
      candidate `d + 1`: an empty `e` now holds it and is no longer a naked
      single, the board only grew and stayed consistent; a filled `e` left the
      board as it was. */
  ghost predicate Checked(s0: seq<Cell>, h0: seq<seq<bool>>, s: seq<Cell>, h: seq<seq<bool>>, e: nat, d: nat, sol: seq<seq<int>>)
    requires Shaped(s0, h0) && Shaped(s, h) && e < 81
  {
    && Cascaded(s0, h0, s, h, sol)
    && NakedSingles(s) <= NakedSingles(s0) - {e}
    && (s0[e].val == 0 ==> s[e].val == d + 1)
    && (s0[e].val != 0 ==> s == s0 && h == h0)
  }

  /** Assigning the only candidate of an empty cell establishes `Checked`. */
  lemma CheckedAssigned(s0: seq<Cell>, h0: seq<seq<bool>>, s: seq<Cell>, h: seq<seq<bool>>, e: nat, d: nat, sol: seq<seq<int>>)
    requires Sound(s0, h0) && Shaped(s, h) && e < 81 && d < 9 && s0[e].val == 0 && s0[e].canBe[d]
    requires forall d' | 0 <= d' < 9 && d' != d :: !s0[e].canBe[d']
    requires Grows(s0, h0, s, h) && Placed(s0, s)
    requires Consistent(s0) ==> Consistent(s)
    requires Fits(sol, s0, e, d + 1) ==> Completes(sol, s)
    requires NakedSingles(s) <= NakedSingles(s0) - Reached(e, 3)
    requires s[e].val == d + 1
    ensures Checked(s0, h0, s, h, e, d, sol)
  {
    ReachedStep(e, 0);
    EmptyShrinks(s0, s);
    if Completes(sol, s0) {
      ForcedSingle(s0, h0, sol, e, d);
    }
  }

  lemma StruckTrans(s0: seq<Cell>, h0: seq<seq<bool>>, s1: seq<Cell>, h1: seq<seq<bool>>, s: seq<Cell>, h: seq<seq<bool>>)
    requires Shaped(s0, h0) && Shaped(s1, h1) && Shaped(s, h)
    requires Struck(s0, h0, s1, h1) && Struck(s1, h1, s, h)
    ensures Struck(s0, h0, s, h)
  {
  }

  lemma GrowsTrans(s0: seq<Cell>, h0: seq<seq<bool>>, s1: seq<Cell>, h1: seq<seq<bool>>, s: seq<Cell>, h: seq<seq<bool>>)
    requires Shaped(s0, h0) && Shaped(s1, h1) && Shaped(s, h)
    requires Grows(s0, h0, s1, h1) && Grows(s1, h1, s, h)
    ensures Grows(s0, h0, s, h)
  {
  }

  /** The number of empty cells: `81 - Board.solved()`. */
  function Empty(s: seq<Cell>): nat {
    if s == [] then 0 else Empty(s[..|s| - 1]) + (if s[|s| - 1].val == 0 then 1 else 0)
  }

  lemma {:induction false} EmptyBound(s: seq<Cell>)
    ensures Empty(s) <= |s|
    ensures Empty(s) == 0 <==> forall c | 0 <= c < |s| :: s[c].val != 0
  {
    if s != [] {
      EmptyBound(s[..|s| - 1]);
      assert forall c | 0 <= c < |s| - 1 :: s[..|s| - 1][c] == s[c];
    }
  }

  /** Filling cells never empties one; filling one that was empty lowers the count. */
  lemma {:induction false} EmptyShrinks(s0: seq<Cell>, s: seq<Cell>)
    requires |s0| == |s|
    requires forall c | 0 <= c < |s| :: s0[c].val != 0 ==> s[c].val != 0
    ensures Empty(s) <= Empty(s0)
    ensures (exists c :: 0 <= c < |s| && s0[c].val == 0 && s[c].val != 0) ==> Empty(s) < Empty(s0)
  {
    if s != [] {
      var n := |s|;
      EmptyShrinks(s0[..n - 1], s[..n - 1]);
      if c :| 0 <= c < n - 1 && s0[c].val == 0 && s[c].val != 0 {
        assert s0[..n - 1][c] == s0[c] && s[..n - 1][c] == s[c];
      }
    }
  }

  /** A 9x9 grid of digits 0..9, `grid[y][x]`. */
  predicate IsGrid(grid: seq<seq<int>>) {
    |grid| == 9 && forall y | 0 <= y < 9 :: |grid[y]| == 9 && forall x | 0 <= x < 9 :: 0 <= grid[y][x] <= 9
  }

  /** The value of cell `c` in a grid. */
  function At(grid: seq<seq<int>>, c: nat): int
    requires IsGrid(grid) && c < 81
  {
    grid[Y(c)][X(c)]
  }

  /** The digits of line `g` of a grid, in member order. */
  function LineDigits(grid: seq<seq<int>>, g: nat): (r: seq<int>)
    requires IsGrid(grid) && g < 27
    ensures |r| == 9
  {
    seq(9, j requires 0 <= j < 9 => At(grid, Member(g, j)))
  }

  /** A filled grid that obeys the rules: digits 1..9 everywhere and no digit
      twice in a row, column or square. */
  ghost predicate IsSolution(grid: seq<seq<int>>) {
    && IsGrid(grid)
    && (forall c | 0 <= c < 81 :: 1 <= At(grid, c) <= 9)
    && (forall g, j, j' | 0 <= g < 27 && 0 <= j < j' < 9 :: LineDigits(grid, g)[j] != LineDigits(grid, g)[j'])
  }

  /** The board is full and holds exactly `grid`, every entry a digit 1..9. */
  ghost predicate HoldsGrid(grid: seq<seq<int>>, s: seq<Cell>)
    requires |s| == 81
  {
    IsGrid(grid) && forall c | 0 <= c < 81 :: 1 <= At(grid, c) <= 9 && s[c].val == At(grid, c)
  }

  /** Cell `c`, if filled, holds the digit the grid has there. */
  ghost predicate ExtendsAt(grid: seq<seq<int>>, s: seq<Cell>, c: nat)
    requires IsGrid(grid) && |s| == 81 && c < 81
  {
    s[c].val != 0 ==> At(grid, c) == s[c].val
  }

  /** `ExtendsAt` for every cell from `n` on. */
  ghost predicate ExtendsFrom(grid: seq<seq<int>>, s: seq<Cell>, n: nat)
    requires IsGrid(grid) && |s| == 81 && n <= 81
    decreases 81 - n
  {
    n == 81 || (ExtendsAt(grid, s, n) && ExtendsFrom(grid, s, n + 1))
  }

  /** The grid keeps every digit already placed on the board. */
  ghost predicate Extends(grid: seq<seq<int>>, s: seq<Cell>)
    requires IsGrid(grid) && |s| == 81
  {
    ExtendsFrom(grid, s, 0)
  }

  lemma {:induction false} ExtendsFromAll(grid: seq<seq<int>>, s: seq<Cell>, n: nat)
    requires IsGrid(grid) && |s| == 81 && n <= 81
    decreases 81 - n
    ensures ExtendsFrom(grid, s, n) <==> forall c | n <= c < 81 :: ExtendsAt(grid, s, c)
  {
    if n < 81 {
      ExtendsFromAll(grid, s, n + 1);
    }
  }

  /** `Extends` spelled out. */
  lemma ExtendsAll(grid: seq<seq<int>>, s: seq<Cell>)
    requires IsGrid(grid) && |s| == 81
    ensures Extends(grid, s) <==> forall c | 0 <= c < 81 :: s[c].val != 0 ==> At(grid, c) == s[c].val
  {
    ExtendsFromAll(grid, s, 0);
    if Extends(grid, s) {
      forall c | 0 <= c < 81
        ensures s[c].val != 0 ==> At(grid, c) == s[c].val
      {
        assert ExtendsAt(grid, s, c);
      }
    }
  }

  /** `sol` is a solution of the board: it obeys the rules and keeps every
      digit placed on it. */
  ghost predicate Completes(sol: seq<seq<int>>, s: seq<Cell>)
    requires |s| == 81
  {
    IsSolution(sol) && Extends(sol, s)
  }

  /** `sol` is a solution of the board that puts `i` in `c` if `assign(i)`
      on `c` would fill it. */
  ghost predicate Fits(sol: seq<seq<int>>, s: seq<Cell>, c: nat, i: int)
    requires |s| == 81 && c < 81
  {
    Completes(sol, s) && (s[c].val == 0 && i != 0 ==> At(sol, c) == i)
  }

  /** Every non-zero entry of `grid` is on the board. */
  ghost predicate Seeded(grid: seq<seq<int>>, s: seq<Cell>)
    requires IsGrid(grid) && |s| == 81
  {
    forall c | 0 <= c < 81 :: At(grid, c) != 0 ==> s[c].val == At(grid, c)
  }

  /** `sol` keeps every non-zero entry of `grid`. */
  ghost predicate Agrees(sol: seq<seq<int>>, grid: seq<seq<int>>)
    requires IsGrid(sol) && IsGrid(grid)
  {
    forall c | 0 <= c < 81 :: At(grid, c) != 0 ==> At(sol, c) == At(grid, c)
  }

  /** A board that only grew keeps fewer solutions: whatever completes the
      later board completes the earlier one. */
  lemma ExtendsKept(grid: seq<seq<int>>, s0: seq<Cell>, s: seq<Cell>)
    requires IsGrid(grid) && |s0| == 81 && |s| == 81 && Kept(s0, s) && Extends(grid, s)
    ensures Extends(grid, s0)
  {
    ExtendsAll(grid, s0);
    ExtendsAll(grid, s);
  }

  /** Cells with the same values have the same solutions. */
  lemma ExtendsVals(grid: seq<seq<int>>, s: seq<Cell>, s': seq<Cell>)
    requires IsGrid(grid) && |s| == 81 && |s'| == 81 && SameVals(s, s') && Extends(grid, s)
    ensures Extends(grid, s')
  {
    ExtendsAll(grid, s);
    ExtendsAll(grid, s');
  }

  /** Setting cell `c` to the digit a solution has there, then striking
      candidates, keeps that solution. */
  lemma PlaceExtends(sol: seq<seq<int>>, s0: seq<Cell>, s1: seq<Cell>, s: seq<Cell>, c: nat, i: int)
    requires |s0| == 81 && |s| == 81 && c < 81 && 1 <= i <= 9 && s0[c].val == 0
    requires Fits(sol, s0, c, i) && s1 == s0[c := s0[c].(val := i)] && SameVals(s1, s)
    ensures Completes(sol, s)
  {
    ExtendsAll(sol, s0);
    ExtendsAll(sol, s);
  }

  /** A solution of a sound board puts in an empty cell with one candidate
      that candidate. */
  lemma ForcedSingle(s: seq<Cell>, h: seq<seq<bool>>, sol: seq<seq<int>>, e: nat, d: nat)
    requires Sound(s, h) && e < 81 && d < 9 && s[e].val == 0 && Completes(sol, s)
    requires forall d' | 0 <= d' < 9 && d' != d :: !s[e].canBe[d']
    ensures At(sol, e) == d + 1
  {
    ExtendsAll(sol, s);
    SolutionCandidates(s, h, sol, e);
  }

  /** The solutions of a board agree with the snapshot of its values. */
  lemma SnapshotAgrees(sol: seq<seq<int>>, s: seq<Cell>, grid: seq<seq<int>>)
    requires IsGrid(grid) && |s| == 81 && Completes(sol, s)
    requires forall c | 0 <= c < 81 :: At(grid, c) == s[c].val
    ensures Agrees(sol, grid)
  {
    ExtendsAll(sol, s);
  }

  /** A solution of a board seeded from the snapshot of `s0` is a solution of `s0`. */
  lemma SnapshotExtends(sol: seq<seq<int>>, s0: seq<Cell>, grid: seq<seq<int>>, s: seq<Cell>)
    requires IsGrid(grid) && IsGrid(sol) && |s0| == 81 && |s| == 81
    requires forall c | 0 <= c < 81 :: At(grid, c) == s0[c].val
    requires Seeded(grid, s) && Extends(sol, s)
    ensures Extends(sol, s0)
  {
    ExtendsAll(sol, s);
    ExtendsAll(sol, s0);
  }

  /** A full, consistent board is a solution, and the only one it has. */
  lemma FullSolution(s: seq<Cell>, grid: seq<seq<int>>)
    requires CellsWf(s) && Empty(s) == 0 && Consistent(s) && IsGrid(grid)
    requires forall c | 0 <= c < 81 :: At(grid, c) == s[c].val
    ensures Completes(grid, s)
    ensures forall sol | IsGrid(sol) && Extends(sol, s) :: sol == grid
  {
    EmptyBound(s);
    ConsistentAll(s);
    forall g, j, j' | 0 <= g < 27 && 0 <= j < j' < 9
      ensures LineDigits(grid, g)[j] != LineDigits(grid, g)[j']
    {
      var a, b := Member(g, j), Member(g, j');
      MembersDistinct(g, j, j');
      SlotMember(g, j);
      SlotMember(g, j');
      assert LineOf(a, g / 9) == LineOf(b, g / 9);
      assert Peers(a, b);
      assert Unclashed(s, a);
    }
    ExtendsAll(grid, s);
    forall sol | IsGrid(sol) && Extends(sol, s)
      ensures sol == grid
    {
      ExtendsAll(sol, s);
      GridsEqual(sol, grid);
    }
  }

  /** Two grids with the same value in every cell are equal. */
  lemma GridsEqual(a: seq<seq<int>>, b: seq<seq<int>>)
    requires IsGrid(a) && IsGrid(b) && forall c | 0 <= c < 81 :: At(a, c) == At(b, c)
    ensures a == b
  {
    forall y | 0 <= y < 9
      ensures a[y] == b[y]
    {
      forall x | 0 <= x < 9
        ensures a[y][x] == b[y][x]
      {
        Coordinates(x, y);
        DivMod9(y * 9 + x, y, x);
        assert At(a, y * 9 + x) == At(b, y * 9 + x);
      }
    }
  }

  /** Every line of a solution holds each digit 1..9. */
  lemma SolutionCovers(grid: seq<seq<int>>, g: nat)
    requires IsSolution(grid) && g < 27
    ensures forall d | 1 <= d <= 9 :: d in LineDigits(grid, g)
  {
    Pigeonhole(LineDigits(grid, g), 9);
  }

  lemma LineDistinct(grid: seq<seq<int>>, g: nat, j: nat, j': nat)
    requires IsSolution(grid) && g < 27 && j < 9 && j' < 9 && j != j'
    ensures LineDigits(grid, g)[j] != LineDigits(grid, g)[j']
  {
  }

  /** On a sound board, the digit a solution puts in an empty cell is still
      among that cell's candidates. */
  lemma SolutionCandidates(s: seq<Cell>, h: seq<seq<bool>>, grid: seq<seq<int>>, c: nat)
    requires Sound(s, h) && IsSolution(grid) && Extends(grid, s)
    requires c < 81 && s[c].val == 0
    ensures s[c].canBe[At(grid, c) - 1]
  {
    var d := At(grid, c) - 1;
    if !s[c].canBe[d] {
      JustifiedFromAll(s, h, 0);
      assert JustifiedAt(s, h, c);
      var k :| 0 <= k < 3 && h[LineOf(c, k)][d];
      var g := LineOf(c, k);
      HasSoundFromAll(s, h, 0);
      assert HasSoundAt(s, h, g);
      var j :| 0 <= j < 9 && s[Member(g, j)].val == d + 1;
      ExtendsCell(grid, s, Member(g, j));
      MemberSlot(c, k);
      LineDistinct(grid, g, j, Slot(c, k));
    }
  }

  /** A blocked line is a real contradiction: no solution keeps the digits
      already placed. */
  lemma Unsolvable(s: seq<Cell>, h: seq<seq<bool>>, g: nat, d: nat, grid: seq<seq<int>>)
    requires Sound(s, h) && g < 27 && d < 9 && Blocked(s, h, g, d)
    requires IsSolution(grid)
    ensures !Extends(grid, s)
  {
    if Extends(grid, s) {
      SolutionCovers(grid, g);
      assert d + 1 in LineDigits(grid, g);
      var j :| 0 <= j < 9 && LineDigits(grid, g)[j] == d + 1;
      SolutionHolds(s, h, grid, g, d, j);
    }
  }

  /** On a sound board, the member of line `g` where a solution puts a digit
      that the line has not recorded is still empty and can still take it. */
  lemma SolutionHolds(s: seq<Cell>, h: seq<seq<bool>>, sol: seq<seq<int>>, g: nat, d: nat, j: nat)
    requires Sound(s, h) && IsSolution(sol) && Extends(sol, s)
    requires g < 27 && d < 9 && j < 9 && !h[g][d] && At(sol, Member(g, j)) == d + 1
    ensures s[Member(g, j)].val == 0 && s[Member(g, j)].canBe[d]
  {
    var m := Member(g, j);
    if s[m].val == 0 {
      SolutionCandidates(s, h, sol, m);
    } else {
      FilledRecorded(s, h, g, j);
      ExtendsCell(sol, s, m);
    }
  }

  /** A filled member of a line has its digit recorded there. */
  lemma FilledRecorded(s: seq<Cell>, h: seq<seq<bool>>, g: nat, j: nat)
    requires Shaped(s, h) && Recorded(s, h) && g < 27 && j < 9 && s[Member(g, j)].val != 0
    ensures h[g][s[Member(g, j)].val - 1]
  {
    RecordedFromAll(s, h, 0);
    assert RecordedAt(s, h, Member(g, j));
    SlotMember(g, j);
  }

  /** A solution holds the digit of every filled cell. */
  lemma ExtendsCell(grid: seq<seq<int>>, s: seq<Cell>, c: nat)
    requires IsGrid(grid) && |s| == 81 && c < 81 && Extends(grid, s) && s[c].val != 0
    ensures At(grid, c) == s[c].val
  {
    ExtendsFromAll(grid, s, 0);
    assert ExtendsAt(grid, s, c);
  }

  /** Distinct entries of `vs` drawn from 1..m number at most m. */
  lemma {:induction false} NoRoom(vs: seq<int>, m: nat)
    requires forall p | 0 <= p < |vs| :: 1 <= vs[p] <= m
    requires forall p, q | 0 <= p < q < |vs| :: vs[p] != vs[q]
    ensures |vs| <= m
  {
    if |vs| > 0 {
      assert 1 <= vs[0] <= m;
      if p :| 0 <= p < |vs| && vs[p] == m {
        Dropped(vs, p, m);
        NoRoom(vs[..p] + vs[p + 1..], m - 1);
      } else {
        NoRoom(vs, m - 1);
      }
    }
  }

  /** Dropping the entry `m` from distinct entries drawn from 1..m leaves
      distinct entries drawn from 1..m - 1, all of them taken from `vs`. */
  lemma Dropped(vs: seq<int>, p: nat, m: nat)
    requires p < |vs| && vs[p] == m
    requires forall q | 0 <= q < |vs| :: 1 <= vs[q] <= m
    requires forall q, q' | 0 <= q < q' < |vs| :: vs[q] != vs[q']
    ensures var rest := vs[..p] + vs[p + 1..];
      && |rest| == |vs| - 1
      && (forall q | 0 <= q < |rest| :: 1 <= rest[q] <= m - 1 && rest[q] in vs)
      && (forall q, q' | 0 <= q < q' < |rest| :: rest[q] != rest[q'])
  {
    var rest := vs[..p] + vs[p + 1..];
    assert forall q | 0 <= q < |rest| :: rest[q] == vs[if q < p then q else q + 1];
  }

  /** Pigeonhole: n distinct entries drawn from 1..n include every one of them. */
  lemma {:induction false} Pigeonhole(vs: seq<int>, n: nat)
    requires |vs| == n
    requires forall p | 0 <= p < n :: 1 <= vs[p] <= n
    requires forall p, q | 0 <= p < q < n :: vs[p] != vs[q]
    ensures forall d | 1 <= d <= n :: d in vs
  {
    if n > 0 {
      if forall p | 0 <= p < n :: vs[p] != n {
        NoRoom(vs, n - 1);
      }
      var p :| 0 <= p < n && vs[p] == n;
      var rest := vs[..p] + vs[p + 1..];
      Dropped(vs, p, n);
      Pigeonhole(rest, n - 1);
      forall d | 1 <= d < n
        ensures d in vs
      {
        assert d in rest;
        var q :| 0 <= q < |rest| && rest[q] == d;
      }
      assert vs[p] in vs;
    }
  }

  /** The effect of `Line.cant_be(i)` on line `g`: the record is raised and
      every empty member loses candidate `i`; nothing else changes. */
  ghost predicate StruckInLine(s0: seq<Cell>, h0: seq<seq<bool>>, s: seq<Cell>, h: seq<seq<bool>>, g: nat, i: int)
    requires Shaped(s0, h0) && Shaped(s, h) && g < 27 && 1 <= i <= 9
  {
    && h == h0[g := h0[g][i - 1 := true]]
    && (forall e | 0 <= e < 81 :: s[e].val == s0[e].val)
    && (forall e | 0 <= e < 81 && !InLine(e, g) :: s[e] == s0[e])
    && (forall e, d | 0 <= e < 81 && 0 <= d < 9 ::
          s[e].canBe[d] == (s0[e].canBe[d] && !(InLine(e, g) && s0[e].val == 0 && d == i - 1)))
  }

  lemma StruckInLineStruck(s0: seq<Cell>, h0: seq<seq<bool>>, s: seq<Cell>, h: seq<seq<bool>>, g: nat, i: int)
    requires Shaped(s0, h0) && Shaped(s, h) && g < 27 && 1 <= i <= 9
    requires StruckInLine(s0, h0, s, h, g, i)
    ensures Struck(s0, h0, s, h) && h[g][i - 1]
  {
  }

  lemma StruckExcluded(s0: seq<Cell>, h0: seq<seq<bool>>, s: seq<Cell>, h: seq<seq<bool>>, g: nat, i: int)
    requires Shaped(s0, h0) && Shaped(s, h) && g < 27 && 1 <= i <= 9
    requires StruckInLine(s0, h0, s, h, g, i) && Excluded(s0, h0)
    ensures Excluded(s, h)
  {
    ExcludedAll(s0, h0);
    ExcludedAll(s, h);
    forall e, k, d | 0 <= e < 81 && 0 <= k < 3 && 0 <= d < 9 && s[e].val == 0 && h[LineOf(e, k)][d]
      ensures !s[e].canBe[d]
    {
      if LineOf(e, k) == g && d == i - 1 {
        assert InLine(e, g);
      }
    }
  }

  lemma StruckJustified(s0: seq<Cell>, h0: seq<seq<bool>>, s: seq<Cell>, h: seq<seq<bool>>, g: nat, i: int)
    requires Shaped(s0, h0) && Shaped(s, h) && g < 27 && 1 <= i <= 9
    requires StruckInLine(s0, h0, s, h, g, i) && Justified(s0, h0)
    ensures Justified(s, h)
  {
    JustifiedAll(s0, h0);
    JustifiedAll(s, h);
    forall c, d | 0 <= c < 81 && 0 <= d < 9 && s[c].val == 0 && !s[c].canBe[d]
      ensures h[LineOf(c, 0)][d] || h[LineOf(c, 1)][d] || h[LineOf(c, 2)][d]
    {
      if s0[c].canBe[d] {
        assert InLine(c, g) && d == i - 1;
        assert LineOf(c, g / 9) == g;
      }
    }
  }

  lemma StruckHasSound(s0: seq<Cell>, h0: seq<seq<bool>>, s: seq<Cell>, h: seq<seq<bool>>, g: nat, i: int, c: nat)
    requires Shaped(s0, h0) && Shaped(s, h) && g < 27 && 1 <= i <= 9
    requires StruckInLine(s0, h0, s, h, g, i) && HasSound(s0, h0)
    requires c < 81 && InLine(c, g) && s0[c].val == i
    ensures HasSound(s, h)
  {
    HasSoundAll(s0, h0);
    HasSoundAll(s, h);
    MemberSlot(c, g / 9);
    forall g', d | 0 <= g' < 27 && 0 <= d < 9 && h[g'][d]
      ensures exists j | 0 <= j < 9 :: s[Member(g', j)].val == d + 1
    {
      if g' == g && d == i - 1 {
        assert s[Member(g, Slot(c, g / 9))].val == d + 1;
      } else {
        var j :| 0 <= j < 9 && s0[Member(g', j)].val == d + 1;
        assert s[Member(g', j)].val == d + 1;
      }
    }
  }

  lemma StruckSingles(s0: seq<Cell>, h0: seq<seq<bool>>, s: seq<Cell>, h: seq<seq<bool>>, g: nat, i: int)
    requires Shaped(s0, h0) && Shaped(s, h) && g < 27 && 1 <= i <= 9
    requires StruckInLine(s0, h0, s, h, g, i)
    ensures NakedSingles(s) <= NakedSingles(s0) + LineSet(g)
  {
    forall e | e in NakedSingles(s)
      ensures e in NakedSingles(s0) + LineSet(g)
    {
      if !InLine(e, g) {
        assert s[e] == s0[e];
      }
    }
  }

  /** The cells after `cant_be(i)` has run on the first `n` members of line `g`. */
  ghost function StrikeFirst(s: seq<Cell>, g: nat, i: int, n: nat): (r: seq<Cell>)
    requires CellsWf(s) && g < 27 && 1 <= i <= 9 && n <= 9
    ensures CellsWf(r)
  {
    if n == 0 then s
    else
      var r := StrikeFirst(s, g, i, n - 1);
      r[Member(g, n - 1) := CantBe(r[Member(g, n - 1)], i)]
  }

  lemma StrikeFirstEffect(s: seq<Cell>, g: nat, i: int, n: nat)
    requires CellsWf(s) && g < 27 && 1 <= i <= 9 && n <= 9
    ensures var r := StrikeFirst(s, g, i, n);
      && (forall e | 0 <= e < 81 :: r[e].val == s[e].val)
      && (forall e | 0 <= e < 81 && !(InLine(e, g) && Slot(e, g / 9) < n) :: r[e] == s[e])
      && (forall e, d | 0 <= e < 81 && InLine(e, g) && Slot(e, g / 9) < n && 0 <= d < 9 ::
            r[e].canBe[d] == (s[e].canBe[d] && !(s[e].val == 0 && d == i - 1)))
  {
    StrikeFirstFrame(s, g, i, n);
    StrikeFirstCandidates(s, g, i, n);
  }

  /** Striking the first `n` members of line `g` keeps every value and
      leaves the cells outside those members alone. */
  lemma {:induction false} StrikeFirstFrame(s: seq<Cell>, g: nat, i: int, n: nat)
    requires CellsWf(s) && g < 27 && 1 <= i <= 9 && n <= 9
    ensures var r := StrikeFirst(s, g, i, n);
      && (forall e | 0 <= e < 81 :: r[e].val == s[e].val)
      && (forall e | 0 <= e < 81 && !(InLine(e, g) && Slot(e, g / 9) < n) :: r[e] == s[e])
  {
    if n > 0 {
      StrikeFirstFrame(s, g, i, n - 1);
      var r', r := StrikeFirst(s, g, i, n - 1), StrikeFirst(s, g, i, n);
      var m := Member(g, n - 1);
      SlotMember(g, n - 1);
      var k := g / 9;
      forall e | 0 <= e < 81 && e != m
        ensures r[e] == r'[e]
        ensures InLine(e, g) ==> Slot(e, k) != n - 1
      {
        if InLine(e, g) {
          MemberSlot(e, k);
          assert Member(g, Slot(e, k)) == e;
        }
      }
    }
  }

  /** Striking the first `n` members of line `g` removes `i` from the
      candidates of those that are empty, and nothing else. */
  lemma {:induction false} StrikeFirstCandidates(s: seq<Cell>, g: nat, i: int, n: nat)
    requires CellsWf(s) && g < 27 && 1 <= i <= 9 && n <= 9
    ensures var r := StrikeFirst(s, g, i, n);
      forall e, d | 0 <= e < 81 && InLine(e, g) && Slot(e, g / 9) < n && 0 <= d < 9 ::
        r[e].canBe[d] == (s[e].canBe[d] && !(s[e].val == 0 && d == i - 1))
  {
    if n > 0 {
      StrikeFirstCandidates(s, g, i, n - 1);
      StrikeFirstFrame(s, g, i, n - 1);
      var r', r := StrikeFirst(s, g, i, n - 1), StrikeFirst(s, g, i, n);
      var m := Member(g, n - 1);
      SlotMember(g, n - 1);
      assert r'[m] == s[m];
      var k := g / 9;
      forall e, d | 0 <= e < 81 && InLine(e, g) && Slot(e, k) < n && 0 <= d < 9
        ensures r[e].canBe[d] == (s[e].canBe[d] && !(s[e].val == 0 && d == i - 1))
      {
        if e != m {
          MemberSlot(e, k);
          assert Slot(e, k) < n - 1;
          assert r[e] == r'[e];
        }
      }
    }
  }

  /** Striking all nine members is the effect of `Line.cant_be`. */
  lemma StrikeAll(s: seq<Cell>, h: seq<seq<bool>>, g: nat, i: int)
    requires Shaped(s, h) && g < 27 && 1 <= i <= 9
    ensures Shaped(StrikeFirst(s, g, i, 9), h[g := h[g][i - 1 := true]])
    ensures StruckInLine(s, h, StrikeFirst(s, g, i, 9), h[g := h[g][i - 1 := true]], g, i)
  {
    StrikeFirstEffect(s, g, i, 9);
    var r := StrikeFirst(s, g, i, 9);
    forall e | 0 <= e < 81 && !InLine(e, g)
      ensures r[e] == s[e]
    {
    }
  }

  lemma GrowsEmpty(s0: seq<Cell>, h0: seq<seq<bool>>, s: seq<Cell>, h: seq<seq<bool>>)
    requires Shaped(s0, h0) && Shaped(s, h) && Grows(s0, h0, s, h)
    ensures Empty(s) <= Empty(s0)
  {
    EmptyShrinks(s0, s);
  }

  /** On a sound board a digit held by a peer is never a candidate. */
  lemma PeerExcluded(s: seq<Cell>, h: seq<seq<bool>>, c: nat, b: nat)
    requires Sound(s, h) && c < 81 && b < 81 && Peers(c, b)
    requires s[c].val == 0 && s[b].val != 0
    ensures !s[c].canBe[s[b].val - 1]
  {
    SoundAll(s, h);
    var k := if LineOf(c, 0) == LineOf(b, 0) then 0 else if LineOf(c, 1) == LineOf(b, 1) then 1 else 2;
    assert h[LineOf(b, k)][s[b].val - 1];
  }

  /** A candidate of an empty cell is held by none of its peers. */
  lemma CandidateFree(s: seq<Cell>, h: seq<seq<bool>>, c: nat, i: int)
    requires Sound(s, h) && c < 81 && 1 <= i <= 9 && s[c].val == 0 && s[c].canBe[i - 1]
    ensures forall b | 0 <= b < 81 && Peers(c, b) :: s[b].val != i
  {
    forall b | 0 <= b < 81 && Peers(c, b) && s[b].val != 0
      ensures s[b].val != i
    {
      PeerExcluded(s, h, c, b);
    }
  }

  /** Placing in `c` a digit none of its peers holds keeps a consistent board
      consistent. */
  lemma PlaceConsistent(s: seq<Cell>, c: nat, i: int)
    requires |s| == 81 && Consistent(s) && c < 81 && 1 <= i <= 9
    requires forall b | 0 <= b < 81 && Peers(c, b) :: s[b].val != i
    ensures Consistent(s[c := s[c].(val := i)])
  {
    var s' := s[c := s[c].(val := i)];
    ConsistentAll(s);
    forall a | 0 <= a < 81
      ensures Unclashed(s', a)
    {
      forall b | 0 <= b < 81 && b != a && Peers(a, b) && s'[a].val != 0
        ensures s'[a].val != s'[b].val
      {
        if b == c {
          assert Peers(b, a);
        } else if a != c {
          assert Unclashed(s, a);
        }
      }
    }
    ConsistentAll(s');
  }

  /** After the three `Line.cant_be` calls of an assignment of `i` to `c`,
      every placed digit is recorded again. */
  lemma PlacedRecorded(s0: seq<Cell>, h0: seq<seq<bool>>, s1: seq<Cell>, s: seq<Cell>, h: seq<seq<bool>>, c: nat, i: int)
    requires Shaped(s0, h0) && Shaped(s1, h0) && Shaped(s, h) && Recorded(s0, h0) && c < 81 && 1 <= i <= 9
    requires s0[c].val == 0 && s1 == s0[c := s0[c].(val := i)]
    requires Struck(s1, h0, s, h)
    requires forall k | 0 <= k < 3 :: h[LineOf(c, k)][i - 1]
    ensures Recorded(s, h)
  {
    RecordedAll(s0, h0);
    RecordedAll(s, h);
  }

  /** Setting an empty cell and then striking is growth. */
  lemma PlaceGrows(s0: seq<Cell>, h0: seq<seq<bool>>, s1: seq<Cell>, s: seq<Cell>, h: seq<seq<bool>>, c: nat, i: int)
    requires Shaped(s0, h0) && Shaped(s1, h0) && Shaped(s, h) && c < 81 && 1 <= i <= 9
    requires s0[c].val == 0 && s1 == s0[c := s0[c].(val := i)]
    requires Struck(s1, h0, s, h)
    ensures Grows(s0, h0, s, h)
  {
  }

  /** Striking keeps the busy cells filled and the settled cells settled. */
  lemma StruckSettled(s0: seq<Cell>, h0: seq<seq<bool>>, s: seq<Cell>, h: seq<seq<bool>>, busy: set<nat>)
    requires Shaped(s0, h0) && Shaped(s, h) && Struck(s0, h0, s, h)
    requires Busy(s0, busy) && SettledExcept(s0, busy)
    ensures Busy(s, busy) && SettledExcept(s, busy)
  {
  }

  /** Striking keeps the number of empty cells. */
  lemma StruckEmpty(s0: seq<Cell>, h0: seq<seq<bool>>, s: seq<Cell>, h: seq<seq<bool>>)
    requires Shaped(s0, h0) && Shaped(s, h) && Struck(s0, h0, s, h)
    ensures Empty(s) == Empty(s0)
  {
    EmptyShrinks(s0, s);
    EmptyShrinks(s, s0);
  }

  /** The cells sharing one of the first `k` of `c`'s lines (row, column, square). */
  ghost function Reached(c: nat, k: nat): set<nat>
    requires c < 81 && k <= 3
  {
    set e | 0 <= e < 81 &&
      ((k > 0 && LineOf(e, 0) == LineOf(c, 0)) || (k > 1 && LineOf(e, 1) == LineOf(c, 1)) || (k > 2 && LineOf(e, 2) == LineOf(c, 2)))
  }

  lemma ReachedStep(c: nat, k: nat)
    requires c < 81 && k < 3
    ensures Reached(c, k + 1) == Reached(c, k) + LineSet(LineOf(c, k))
    ensures c in Reached(c, k + 1)
  {
    assert forall e | 0 <= e < 81 :: InLine(e, LineOf(c, k)) <==> LineOf(e, k) == LineOf(c, k);
  }

  /** The first `n` members of line `g`. */
  ghost function LinePrefix(g: nat, n: nat): set<nat>
    requires g < 27 && n <= 9
  {
    set j | 0 <= j < n :: Member(g, j)
  }

  lemma LinePrefixStep(g: nat, j: nat)
    requires g < 27 && j < 9
    ensures LinePrefix(g, j + 1) == LinePrefix(g, j) + {Member(g, j)}
  {
  }

  lemma LinePrefixAll(g: nat)
    requires g < 27
    ensures LinePrefix(g, 9) == LineSet(g)
  {
    LineMembers(g);
    forall e | e in LineSet(g)
      ensures e in LinePrefix(g, 9)
    {
      assert Member(g, Slot(e, g / 9)) == e;
    }
  }

  /** Cells with the same values are equally consistent. */
  lemma ConsistentVals(s: seq<Cell>, s': seq<Cell>)
    requires |s| == 81 && |s'| == 81 && Consistent(s) && SameVals(s, s')
    ensures Consistent(s')
  {
    ConsistentAll(s);
    ConsistentAll(s');
    assert forall c | 0 <= c < 81 :: Unclashed(s, c) ==> Unclashed(s', c);
  }

  /** The first step of `assign(i)` on an empty cell, setting its value, keeps
      every part of the invariant except that `i` is not yet recorded. */
  lemma PlaceSound(s0: seq<Cell>, h0: seq<seq<bool>>, c: nat, i: int)
    requires Sound(s0, h0) && c < 81 && 1 <= i <= 9 && s0[c].val == 0
    ensures var s1 := s0[c := s0[c].(val := i)];
      Shaped(s1, h0) && Excluded(s1, h0) && Justified(s1, h0) && HasSound(s1, h0)
  {
    SoundAll(s0, h0);
    SoundAll(s0[c := s0[c].(val := i)], h0);
    var s1 := s0[c := s0[c].(val := i)];
    forall g, d | 0 <= g < 27 && 0 <= d < 9 && h0[g][d]
      ensures exists j | 0 <= j < 9 :: s1[Member(g, j)].val == d + 1
    {
      var j :| 0 <= j < 9 && s0[Member(g, j)].val == d + 1;
      assert s1[Member(g, j)].val == d + 1;
    }
  }

  /** Setting the value makes the cell busy, leaves one empty cell fewer and
      creates no naked single. */
  lemma PlaceProgress(s0: seq<Cell>, c: nat, i: int, busy: set<nat>)
    requires CellsWf(s0) && c < 81 && 1 <= i <= 9 && s0[c].val == 0
    requires Busy(s0, busy) && SettledExcept(s0, busy)
    ensures var s1 := s0[c := s0[c].(val := i)];
      && Busy(s1, busy + {c}) && SettledExcept(s1, busy + {c})
      && Empty(s1) < Empty(s0)
      && NakedSingles(s1) <= NakedSingles(s0)
  {
    EmptyShrinks(s0, s0[c := s0[c].(val := i)]);
  }

  /** Placing a digit that is still a candidate keeps the grid consistent. */
  lemma PlaceLegal(s0: seq<Cell>, h0: seq<seq<bool>>, c: nat, i: int)
    requires Sound(s0, h0) && c < 81 && 1 <= i <= 9 && s0[c].val == 0
    requires Consistent(s0) && s0[c].canBe[i - 1]
    ensures Consistent(s0[c := s0[c].(val := i)])
  {
    CandidateFree(s0, h0, c, i);
    PlaceConsistent(s0, c, i);
  }

  /** The first half of `assign` as a whole: cell `c` of `s0` took `i`
      (giving `s1`) and its lines then struck `i` (giving `s`, `h`). */
  lemma PlaceDone(s0: seq<Cell>, h0: seq<seq<bool>>, s1: seq<Cell>, s: seq<Cell>, h: seq<seq<bool>>,
                  c: nat, i: int, busy: set<nat>, sol: seq<seq<int>>)
    requires Sound(s0, h0) && c < 81 && 1 <= i <= 9 && s0[c].val == 0
    requires Busy(s0, busy) && SettledExcept(s0, busy)
    requires s1 == s0[c := s0[c].(val := i)] && Shaped(s1, h0) && Shaped(s, h) && Struck(s1, h0, s, h)
    requires Excluded(s, h) && Justified(s, h) && HasSound(s, h)
    requires forall k | 0 <= k < 3 :: h[LineOf(c, k)][i - 1]
    requires NakedSingles(s) <= NakedSingles(s1) + Reached(c, 3)
    ensures Sound(s, h) && Busy(s, busy + {c}) && SettledExcept(s, busy + {c})
    ensures Grows(s0, h0, s, h) && Empty(s) < Empty(s0) && s[c].val == i
    ensures NakedSingles(s) <= NakedSingles(s0) + Reached(c, 3)
    ensures Consistent(s0) && s0[c].canBe[i - 1] ==> Consistent(s)
    ensures s0[c].canBe[i - 1] ==> Placed(s0, s)
    ensures Fits(sol, s0, c, i) ==> Completes(sol, s)
  {
    PlaceProgress(s0, c, i, busy);
    PlacedRecorded(s0, h0, s1, s, h, c, i);
    PlaceGrows(s0, h0, s1, s, h, c, i);
    StruckSettled(s1, h0, s, h, busy + {c});
    StruckEmpty(s1, h0, s, h);
    if Consistent(s0) && s0[c].canBe[i - 1] {
      PlaceLegal(s0, h0, c, i);
      ConsistentVals(s1, s);
    }
    if Fits(sol, s0, c, i) {
      PlaceExtends(sol, s0, s1, s, c, i);
    }
    if s0[c].canBe[i - 1] {
      PlacePlaced(s0, s1, s, c, i);
    }
  }

  /** Setting an empty cell to one of its candidates, then striking, fills
      only that cell, with a candidate. */
  lemma PlacePlaced(s0: seq<Cell>, s1: seq<Cell>, s: seq<Cell>, c: nat, i: int)
    requires CellsWf(s0) && CellsWf(s1) && CellsWf(s) && c < 81 && 1 <= i <= 9 && s0[c].canBe[i - 1]
    requires s1 == s0[c := s0[c].(val := i)] && SameVals(s1, s)
    ensures Placed(s0, s)
  {
  }

  /** The last step of `assign`, clearing the placed cell's candidates, keeps
      the invariant ... */
  lemma ClearedSound(s: seq<Cell>, h: seq<seq<bool>>, c: nat)
    requires Sound(s, h) && c < 81 && s[c].val != 0
    ensures Sound(s[c := Cell(s[c].val, NoCandidates, 0)], h)
  {
    ClearedCells(s, h, c);
    ClearedLines(s, h, c);
  }

  lemma ClearedCells(s: seq<Cell>, h: seq<seq<bool>>, c: nat)
    requires Sound(s, h) && c < 81 && s[c].val != 0
    ensures var s' := s[c := Cell(s[c].val, NoCandidates, 0)];
      Shaped(s', h) && Recorded(s', h) && Excluded(s', h) && Justified(s', h)
  {
    FreshWf();
    ClearedRecorded(s, h, c);
    ClearedExcluded(s, h, c);
    ClearedJustified(s, h, c);
  }

  lemma ClearedRecorded(s: seq<Cell>, h: seq<seq<bool>>, c: nat)
    requires Shaped(s, h) && Recorded(s, h) && c < 81 && s[c].val != 0
    requires Shaped(s[c := Cell(s[c].val, NoCandidates, 0)], h)
    ensures Recorded(s[c := Cell(s[c].val, NoCandidates, 0)], h)
  {
    var s' := s[c := Cell(s[c].val, NoCandidates, 0)];
    RecordedFromAll(s, h, 0);
    RecordedFromAll(s', h, 0);
    forall e | 0 <= e < 81
      ensures RecordedAt(s', h, e)
    {
      assert RecordedAt(s, h, e);
    }
  }

  lemma ClearedExcluded(s: seq<Cell>, h: seq<seq<bool>>, c: nat)
    requires Shaped(s, h) && Excluded(s, h) && c < 81 && s[c].val != 0
    requires Shaped(s[c := Cell(s[c].val, NoCandidates, 0)], h)
    ensures Excluded(s[c := Cell(s[c].val, NoCandidates, 0)], h)
  {
    var s' := s[c := Cell(s[c].val, NoCandidates, 0)];
    ExcludedFromAll(s, h, 0);
    ExcludedFromAll(s', h, 0);
    forall e | 0 <= e < 81
      ensures ExcludedAt(s', h, e)
    {
      assert ExcludedAt(s, h, e);
    }
  }

  lemma ClearedJustified(s: seq<Cell>, h: seq<seq<bool>>, c: nat)
    requires Shaped(s, h) && Justified(s, h) && c < 81 && s[c].val != 0
    requires Shaped(s[c := Cell(s[c].val, NoCandidates, 0)], h)
    ensures Justified(s[c := Cell(s[c].val, NoCandidates, 0)], h)
  {
    var s' := s[c := Cell(s[c].val, NoCandidates, 0)];
    JustifiedFromAll(s, h, 0);
    JustifiedFromAll(s', h, 0);
    forall e | 0 <= e < 81
      ensures JustifiedAt(s', h, e)
    {
      assert JustifiedAt(s, h, e);
    }
  }

  lemma ClearedLines(s: seq<Cell>, h: seq<seq<bool>>, c: nat)
    requires Sound(s, h) && c < 81 && s[c].val != 0
    ensures var s' := s[c := Cell(s[c].val, NoCandidates, 0)];
      Shaped(s', h) && HasSound(s', h)
  {
    var s' := s[c := Cell(s[c].val, NoCandidates, 0)];
    FreshWf();
    HasSoundFromAll(s, h, 0);
    HasSoundFromAll(s', h, 0);
    forall g | 0 <= g < 27
      ensures HasSoundAt(s', h, g)
    {
      assert HasSoundAt(s, h, g);
      forall d | 0 <= d < 9 && h[g][d]
        ensures exists j | 0 <= j < 9 :: s'[Member(g, j)].val == d + 1
      {
        var j :| 0 <= j < 9 && s[Member(g, j)].val == d + 1;
        assert s'[Member(g, j)].val == d + 1;
      }
    }
  }

  /** ... and settles the cell. */
  lemma ClearedSettled(s0: seq<Cell>, h0: seq<seq<bool>>, s: seq<Cell>, h: seq<seq<bool>>, c: nat, busy: set<nat>)
    requires Shaped(s, h) && Shaped(s0, h0) && Grows(s0, h0, s, h)
    requires c < 81 && s[c].val != 0
    requires Busy(s, busy + {c}) && SettledExcept(s, busy + {c})
    ensures var s' := s[c := Cell(s[c].val, NoCandidates, 0)];
      && CellsWf(s') && Busy(s', busy) && SettledExcept(s', busy)
      && Grows(s0, h0, s', h)
      && NakedSingles(s') <= NakedSingles(s)
  {
    FreshWf();
  }

  /** ... and keeps a consistent board consistent. */
  lemma ClearedConsistent(s: seq<Cell>, c: nat)
    requires |s| == 81 && c < 81 && Consistent(s)
    ensures Consistent(s[c := Cell(s[c].val, NoCandidates, 0)])
  {
    ConsistentVals(s, s[c := Cell(s[c].val, NoCandidates, 0)]);
  }

  /** Everything the last step of `assign` keeps when it clears the
      candidates of the filled cell `c`. */
  lemma Cleared(s: seq<Cell>, h: seq<seq<bool>>, c: nat, busy: set<nat>, sol: seq<seq<int>>)
    requires Sound(s, h) && c < 81 && s[c].val != 0
    requires Busy(s, busy + {c}) && SettledExcept(s, busy + {c})
    ensures var s' := s[c := Cell(s[c].val, NoCandidates, 0)];
      && Sound(s', h) && Busy(s', busy) && SettledExcept(s', busy)
      && Grows(s, h, s', h) && Placed(s, s') && NakedSingles(s') <= NakedSingles(s)
      && (Consistent(s) ==> Consistent(s'))
      && (Completes(sol, s) ==> Completes(sol, s'))
  {
    var s' := s[c := Cell(s[c].val, NoCandidates, 0)];
    ClearedSound(s, h, c);
    ClearedSettled(s, h, s, h, c, busy);
    if Consistent(s) {
      ClearedConsistent(s, c);
    }
    assert SameVals(s, s');
    if Completes(sol, s) {
      ExtendsVals(sol, s, s');
    }
  }

  /** `assign(i)` on the empty cell `c`, step by step: `s1` after the value
      is set and struck, `s2` after the three lines are checked, `s` after
      the candidates are cleared. */
  lemma EmptyAssigned(s0: seq<Cell>, h0: seq<seq<bool>>, s1: seq<Cell>, h1: seq<seq<bool>>,
                      s2: seq<Cell>, h: seq<seq<bool>>, s: seq<Cell>, c: nat, i: int, sol: seq<seq<int>>)
    requires Shaped(s0, h0) && Shaped(s1, h1) && Shaped(s2, h) && Shaped(s, h)
    requires c < 81 && 1 <= i <= 9 && s0[c].val == 0 && s1[c].val == i
    requires Grows(s0, h0, s1, h1)
    requires Consistent(s0) && s0[c].canBe[i - 1] ==> Consistent(s1)
    requires s0[c].canBe[i - 1] ==> Placed(s0, s1)
    requires Fits(sol, s0, c, i) ==> Completes(sol, s1)
    requires Cascaded(s1, h1, s2, h, sol)
    requires s == s2[c := Cell(s2[c].val, NoCandidates, 0)] && Grows(s2, h, s, h) && Placed(s2, s)
    requires Consistent(s2) ==> Consistent(s)
    requires Completes(sol, s2) ==> Completes(sol, s)
    ensures Grows(s0, h0, s, h) && s[c] == Cell(i, NoCandidates, 0)
    ensures Consistent(s0) && s0[c].canBe[i - 1] ==> Consistent(s)
    ensures s0[c].canBe[i - 1] ==> Placed(s0, s)
    ensures Fits(sol, s0, c, i) ==> Completes(sol, s)
  {
    GrowsTrans(s0, h0, s1, h1, s2, h);
    GrowsTrans(s0, h0, s2, h, s, h);
    if s0[c].canBe[i - 1] {
      PlacedTrans(s0, s1, s2);
      PlacedTrans(s0, s2, s);
    }
  }

  /** On a sound board no empty peer of a filled cell lists its digit. */
  lemma PlacedExcluded(s: seq<Cell>, h: seq<seq<bool>>, c: nat)
    requires Sound(s, h) && c < 81 && s[c].val != 0
    ensures forall e | 0 <= e < 81 && Peers(c, e) && s[e].val == 0 :: !s[e].canBe[s[c].val - 1]
  {
    forall e | 0 <= e < 81 && Peers(c, e) && s[e].val == 0
      ensures !s[e].canBe[s[c].val - 1]
    {
      assert Peers(e, c);
      PeerExcluded(s, h, e, c);
    }
  }
}
