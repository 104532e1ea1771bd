/** The facts behind `Line.update`, the seeding loops, the choice of a guess
    and the search in `Board.solve`, stated on board snapshots. */
module Solving {
  import opened Grid
  import opened Cells
  import opened State

  /** Every line has every digit it lacks in at least two members: a full
      `Board.update` pass finds nothing to do. */
  ghost predicate NoHiddenSingles(s: seq<Cell>, h: seq<seq<bool>>)
    requires Shaped(s, h)
  {
    forall g | 0 <= g < 27 :: NoHiddenSingle(s, h, g)
  }

  /** A digit that line `g` lacks and that only cell `e` of it can take goes
      in `e` in every solution of a sound board. */
  lemma HiddenSingle(s: seq<Cell>, h: seq<seq<bool>>, sol: seq<seq<int>>, g: nat, d: nat, e: nat)
    requires Sound(s, h) && Completes(sol, s) && g < 27 && d < 9 && !h[g][d] && e < 81
    requires forall j | 0 <= j < 9 && Member(g, j) != e :: !s[Member(g, j)].canBe[d]
    ensures At(sol, e) == d + 1
  {
    SolutionCovers(sol, g);
    assert d + 1 in LineDigits(sol, g);
    var j :| 0 <= j < 9 && LineDigits(sol, g)[j] == d + 1;
    SolutionHolds(s, h, sol, g, d, j);
  }

  /** The board `Board.__init__` starts from: 81 fresh cells and no digit
      recorded in any line. */
  const BlankCells: seq<Cell> := seq(81, _ => Fresh)
  const BlankFlags: seq<seq<bool>> := seq(27, _ => NoCandidates)

  lemma {:induction false} EmptyAll(s: seq<Cell>)
    requires forall c | 0 <= c < |s| :: s[c].val == 0
    ensures Empty(s) == |s|
  {
    if s != [] {
      assert forall c | 0 <= c < |s| - 1 :: s[..|s| - 1][c] == s[c];
      EmptyAll(s[..|s| - 1]);
    }
  }

  /** The blank board is sound, settled and consistent, every cell is empty
      and has all nine candidates, and every grid extends it. */
  lemma BlankSound()
    ensures Sound(BlankCells, BlankFlags) && Settled(BlankCells) && Consistent(BlankCells)
    ensures Empty(BlankCells) == 81 && NakedSingles(BlankCells) == {}
    ensures forall grid | IsGrid(grid) :: Extends(grid, BlankCells)
  {
    var s, h := BlankCells, BlankFlags;
    FreshWf();
    assert Shaped(s, h);
    SoundAll(s, h);
    ConsistentAll(s);
    EmptyAll(s);
    assert forall e | 0 <= e < 81 :: s[e].count == 9;
    forall grid | IsGrid(grid)
      ensures Extends(grid, s)
    {
      ExtendsAll(grid, s);
    }
  }

  /** Every non-zero entry of `grid` at a scan position below `n` is filled on
      the board. */
  ghost predicate FilledBefore(grid: seq<seq<int>>, s: seq<Cell>, n: nat)
    requires IsGrid(grid) && |s| == 81
  {
    forall c | 0 <= c < 81 && ScanPos(c) < n :: At(grid, c) != 0 ==> s[c].val != 0
  }

  /** Every non-zero entry of `grid` at a scan position below `n` is on the
      board. */
  ghost predicate SeededBefore(grid: seq<seq<int>>, s: seq<Cell>, n: nat)
    requires IsGrid(grid) && |s| == 81
  {
    forall c | 0 <= c < 81 && ScanPos(c) < n :: At(grid, c) != 0 ==> s[c].val == At(grid, c)
  }

  /** Seeding cell (x, y), at scan position `x * 9 + y`, extends
      `FilledBefore` by one. */
  lemma FilledStep(grid: seq<seq<int>>, s0: seq<Cell>, s: seq<Cell>, x: nat, y: nat, c: nat, i: int)
    requires IsGrid(grid) && |s0| == 81 && |s| == 81 && x < 9 && y < 9
    requires c == y * 9 + x && i == grid[y][x]
    requires FilledBefore(grid, s0, x * 9 + y) && Kept(s0, s)
    requires i != 0 ==> s[c].val != 0
    ensures FilledBefore(grid, s, x * 9 + y + 1)
  {
    ScanAt(grid, x, y);
    forall e | 0 <= e < 81 && ScanPos(e) < x * 9 + y + 1
      ensures At(grid, e) != 0 ==> s[e].val != 0
    {
      ScanInverse(x * 9 + y, e);
    }
  }

  /** Seeding cell (x, y) extends `SeededBefore` by one. */
  lemma SeededStep(grid: seq<seq<int>>, s0: seq<Cell>, s: seq<Cell>, x: nat, y: nat, c: nat, i: int)
    requires IsGrid(grid) && |s0| == 81 && |s| == 81 && x < 9 && y < 9
    requires c == y * 9 + x && i == grid[y][x]
    requires SeededBefore(grid, s0, x * 9 + y) && Kept(s0, s)
    requires i != 0 ==> s[c].val == i
    ensures SeededBefore(grid, s, x * 9 + y + 1)
  {
    ScanAt(grid, x, y);
    forall e | 0 <= e < 81 && ScanPos(e) < x * 9 + y + 1
      ensures At(grid, e) != 0 ==> s[e].val == At(grid, e)
    {
      ScanInverse(x * 9 + y, e);
    }
  }

  /** After the whole scan every seed is on the board. */
  lemma SeededAll(grid: seq<seq<int>>, s: seq<Cell>)
    requires IsGrid(grid) && |s| == 81 && SeededBefore(grid, s, 81)
    ensures Seeded(grid, s)
  {
    forall c | 0 <= c < 81
      ensures At(grid, c) != 0 ==> s[c].val == At(grid, c)
    {
      ScanInverse(0, c);
    }
  }

  /** After the whole scan every seed's cell is filled, though not
      necessarily with the seed. */
  lemma FilledAll(grid: seq<seq<int>>, s: seq<Cell>)
    requires IsGrid(grid) && |s| == 81 && FilledBefore(grid, s, 81)
    ensures forall c | 0 <= c < 81 :: At(grid, c) != 0 ==> s[c].val != 0
  {
    forall c | 0 <= c < 81
      ensures At(grid, c) != 0 ==> s[c].val != 0
    {
      ScanInverse(0, c);
    }
  }

  /** Line `g` lacks digit `d + 1`, and its member `j` is the only one that
      can take it: a hidden single. */
  ghost predicate HiddenAt(s: seq<Cell>, h: seq<seq<bool>>, g: nat, d: nat, j: nat)
    requires Shaped(s, h) && g < 27 && d < 9 && j < 9
  {
    !h[g][d] && s[Member(g, j)].canBe[d] && forall k | 0 <= k < 9 && k != j :: !s[Member(g, k)].canBe[d]
  }

  /** What `Line.update` of line `g` owes digit `d + 1` of the board `s0`,
      `h0` once it is past that digit: the digit was not blocked there, and
      a hidden single for it now holds it (on the board `s`). */
  ghost predicate DigitDone(s0: seq<Cell>, h0: seq<seq<bool>>, s: seq<Cell>, g: nat, d: nat)
    requires Shaped(s0, h0) && CellsWf(s) && g < 27 && d < 9
  {
    && !Blocked(s0, h0, g, d)
    && forall j | 0 <= j < 9 :: HiddenAt(s0, h0, g, d, j) ==> s[Member(g, j)].val == d + 1
  }

  /** `DigitDone` for every digit of line `g`. */
  ghost predicate LineDone(s0: seq<Cell>, h0: seq<seq<bool>>, s: seq<Cell>, g: nat)
    requires Shaped(s0, h0) && CellsWf(s) && g < 27
  {
    forall d | 0 <= d < 9 :: DigitDone(s0, h0, s, g, d)
  }

  /** What `Line.update` on line `g` has done before digit `n + 1`, from the
      board `s0`, `h0`: it cascaded, it changed nothing if `g` had no hidden
      single, and it is done with digits 1..n. */
  ghost predicate Updated(s0: seq<Cell>, h0: seq<seq<bool>>, s: seq<Cell>, h: seq<seq<bool>>, g: nat, n: nat,
                          sol: seq<seq<int>>)
    requires Shaped(s0, h0) && Shaped(s, h) && g < 27 && n <= 9
  {
    && Cascaded(s0, h0, s, h, sol)
    && (NoHiddenSingle(s0, h0, g) ==> s == s0 && h == h0)
    && forall d | 0 <= d < n :: DigitDone(s0, h0, s, g, d)
  }

  /** A digit line `g` lacked on the board `s0` but records on a board `s`
      grown from it by placing candidates only is held by a member that
      could take it on `s0`. */
  lemma NewlyRecorded(s0: seq<Cell>, h0: seq<seq<bool>>, s: seq<Cell>, h: seq<seq<bool>>, g: nat, d: nat)
    requires Sound(s0, h0) && Sound(s, h) && Grows(s0, h0, s, h) && Placed(s0, s)
    requires g < 27 && d < 9 && !h0[g][d] && h[g][d]
    ensures exists j | 0 <= j < 9 :: s0[Member(g, j)].canBe[d] && s[Member(g, j)].val == d + 1
  {
    HasSoundFromAll(s, h, 0);
    assert HasSoundAt(s, h, g);
    var j :| 0 <= j < 9 && s[Member(g, j)].val == d + 1;
    if s0[Member(g, j)].val != 0 {
      FilledRecorded(s0, h0, g, j);
    }
  }

  /** Along a cascade from a sound board, a blocked digit stays blocked, and
      a hidden single is placed, or is still a hidden single, or is blocked
      because its only cell took another digit. */
  lemma DigitKept(s0: seq<Cell>, h0: seq<seq<bool>>, s: seq<Cell>, h: seq<seq<bool>>, g: nat, d: nat)
    requires Sound(s0, h0) && Sound(s, h) && Grows(s0, h0, s, h) && Placed(s0, s) && g < 27 && d < 9
    ensures Blocked(s0, h0, g, d) ==> Blocked(s, h, g, d)
    ensures forall j | 0 <= j < 9 :: HiddenAt(s0, h0, g, d, j) ==>
      s[Member(g, j)].val == d + 1 || HiddenAt(s, h, g, d, j) || Blocked(s, h, g, d)
  {
    if !h0[g][d] && h[g][d] {
      NewlyRecorded(s0, h0, s, h, g, d);
    }
  }

  /** Two members that can take digit `d + 1` leave no hidden single for it
      and do not block it. */
  lemma TwoHoldersOpen(s: seq<Cell>, h: seq<seq<bool>>, g: nat, d: nat)
    requires Shaped(s, h) && g < 27 && d < 9 && TwoHolders(s, g, d)
    ensures !Blocked(s, h, g, d) && forall j | 0 <= j < 9 :: !HiddenAt(s, h, g, d, j)
  {
    var p, q :| 0 <= p < q < 9 && s[Member(g, p)].canBe[d] && s[Member(g, q)].canBe[d];
  }

  /** One digit of `Line.update`, from `s1`, the board digit `d + 1` started
      on, to `s`: `Updated` from `s0` moves on by one digit. */
  lemma DigitStep(s0: seq<Cell>, h0: seq<seq<bool>>, s1: seq<Cell>, h1: seq<seq<bool>>, s: seq<Cell>, h: seq<seq<bool>>,
                  g: nat, d: nat, sol: seq<seq<int>>)
    requires Sound(s0, h0) && Sound(s1, h1) && Sound(s, h) && g < 27 && d < 9
    requires Updated(s0, h0, s1, h1, g, d, sol) && Cascaded(s1, h1, s, h, sol)
    requires DigitDone(s1, h1, s, g, d)
    requires NoHiddenSingle(s0, h0, g) ==> s == s1 && h == h1
    ensures Updated(s0, h0, s, h, g, d + 1, sol)
  {
    CascadedTrans(s0, h0, s1, h1, s, h, sol);
    forall d' | 0 <= d' < d + 1
      ensures DigitDone(s0, h0, s, g, d')
    {
      if d' < d {
        DoneKept(s0, h0, s1, s, g, d');
      } else {
        DigitCarried(s0, h0, s1, h1, s, g, d);
      }
    }
  }

  /** A digit done on `s1` stays done on a board `s` that kept the values
      of `s1`. */
  lemma DoneKept(s0: seq<Cell>, h0: seq<seq<bool>>, s1: seq<Cell>, s: seq<Cell>, g: nat, d: nat)
    requires Shaped(s0, h0) && CellsWf(s1) && CellsWf(s) && g < 27 && d < 9
    requires DigitDone(s0, h0, s1, g, d) && Kept(s1, s)
    ensures DigitDone(s0, h0, s, g, d)
  {
    forall j | 0 <= j < 9 && HiddenAt(s0, h0, g, d, j)
      ensures s[Member(g, j)].val == d + 1
    {
      assert s1[Member(g, j)].val == d + 1;
    }
  }

  /** A digit done from `s1` is done from `s0` when `s0` cascaded into `s1`. */
  lemma DigitCarried(s0: seq<Cell>, h0: seq<seq<bool>>, s1: seq<Cell>, h1: seq<seq<bool>>, s: seq<Cell>, g: nat, d: nat)
    requires Sound(s0, h0) && Sound(s1, h1) && CellsWf(s) && g < 27 && d < 9
    requires Grows(s0, h0, s1, h1) && Placed(s0, s1) && Kept(s1, s)
    requires DigitDone(s1, h1, s, g, d)
    ensures DigitDone(s0, h0, s, g, d)
  {
    DigitKept(s0, h0, s1, h1, g, d);
    forall j | 0 <= j < 9 && HiddenAt(s0, h0, g, d, j)
      ensures s[Member(g, j)].val == d + 1
    {
      if s1[Member(g, j)].val == d + 1 {
        assert Kept(s1, s);
      }
    }
  }

  /** What `Board.update` has done before line `n`, from the board `s0`,
      `h0`: it cascaded, lines 0..n-1 are done, and nothing changed if no
      line had a hidden single. */
  ghost predicate LinesUpdated(s0: seq<Cell>, h0: seq<seq<bool>>, s: seq<Cell>, h: seq<seq<bool>>, n: nat, sol: seq<seq<int>>)
    requires Shaped(s0, h0) && Shaped(s, h) && n <= 27
  {
    && Cascaded(s0, h0, s, h, sol)
    && (forall g | 0 <= g < n :: LineDone(s0, h0, s, g))
    && (NoHiddenSingles(s0, h0) ==> s == s0 && h == h0)
  }

  /** One line of `Board.update`, from `s1` to `s`: the lines before `g`
      stay done, and line `g`, done from `s1`, is done from `s0`. */
  lemma LineStep(s0: seq<Cell>, h0: seq<seq<bool>>, s1: seq<Cell>, h1: seq<seq<bool>>, s: seq<Cell>, h: seq<seq<bool>>,
                 g: nat, sol: seq<seq<int>>)
    requires Sound(s0, h0) && Sound(s1, h1) && Sound(s, h) && g < 27
    requires LinesUpdated(s0, h0, s1, h1, g, sol) && Cascaded(s1, h1, s, h, sol)
    requires LineDone(s1, h1, s, g)
    requires NoHiddenSingle(s1, h1, g) ==> s == s1 && h == h1
    ensures LinesUpdated(s0, h0, s, h, g + 1, sol)
  {
    CascadedTrans(s0, h0, s1, h1, s, h, sol);
    forall g', d | 0 <= g' < g + 1 && 0 <= d < 9
      ensures DigitDone(s0, h0, s, g', d)
    {
      if g' < g {
        assert LineDone(s0, h0, s1, g');
        DoneKept(s0, h0, s1, s, g', d);
      } else {
        assert DigitDone(s1, h1, s, g, d);
        DigitCarried(s0, h0, s1, h1, s, g, d);
      }
    }
  }

  /** After every line, no digit that a line lacked on `s0` was blocked. */
  lemma LinesDone(s0: seq<Cell>, h0: seq<seq<bool>>, s: seq<Cell>, h: seq<seq<bool>>, sol: seq<seq<int>>)
    requires Shaped(s0, h0) && Shaped(s, h) && LinesUpdated(s0, h0, s, h, 27, sol)
    ensures forall g, d | 0 <= g < 27 && 0 <= d < 9 :: !Blocked(s0, h0, g, d)
  {
    forall g, d | 0 <= g < 27 && 0 <= d < 9
      ensures !Blocked(s0, h0, g, d)
    {
      assert LineDone(s0, h0, s, g);
      assert DigitDone(s0, h0, s, g, d);
    }
  }

  /** What the as-written seeding has done before scan position `n`, from
      the board `s0`, `h0`: the board grew, every seed so far is filled, and
      a solution of the board that agrees with the seeds is still one. */
  ghost predicate SeedsFilled(grid: seq<seq<int>>, s0: seq<Cell>, h0: seq<seq<bool>>, s: seq<Cell>, h: seq<seq<bool>>,
                              n: nat, sol: seq<seq<int>>)
    requires IsGrid(grid) && Shaped(s0, h0) && Shaped(s, h)
  {
    && Grows(s0, h0, s, h)
    && FilledBefore(grid, s, n)
    && (Completes(sol, s0) && Agrees(sol, grid) ==> Completes(sol, s))
  }

  /** What the checked seeding has done before scan position `n`: the board
      grew and stayed consistent, every seed so far is on it, and a solution
      of the board that agrees with the seeds is still one. */
  ghost predicate SeedsPlaced(grid: seq<seq<int>>, s0: seq<Cell>, h0: seq<seq<bool>>, s: seq<Cell>, h: seq<seq<bool>>,
                              n: nat, sol: seq<seq<int>>)
    requires IsGrid(grid) && Shaped(s0, h0) && Shaped(s, h)
  {
    && Grows(s0, h0, s, h)
    && (Consistent(s0) ==> Consistent(s))
    && SeededBefore(grid, s, n)
    && (Completes(sol, s0) && Agrees(sol, grid) ==> Completes(sol, s))
  }

  /** One as-written seeding step on cell (x, y), from `s1` to `s`, keeps
      `SeedsFilled`: the board grew, the seed, if any, is filled, and a
      solution that puts the seed there is still a solution. */
  lemma SeedFilledStep(grid: seq<seq<int>>, s0: seq<Cell>, h0: seq<seq<bool>>, s1: seq<Cell>, h1: seq<seq<bool>>,
                       s: seq<Cell>, h: seq<seq<bool>>, x: nat, y: nat, c: nat, i: int, sol: seq<seq<int>>)
    requires IsGrid(grid) && x < 9 && y < 9 && c == y * 9 + x && i == grid[y][x] && Shaped(s0, h0) && Shaped(s1, h1) && Shaped(s, h)
    requires SeedsFilled(grid, s0, h0, s1, h1, x * 9 + y, sol) && Grows(s1, h1, s, h)
    requires i != 0 ==> s[c].val != 0
    requires Fits(sol, s1, c, i) ==> Completes(sol, s)
    ensures SeedsFilled(grid, s0, h0, s, h, x * 9 + y + 1, sol)
  {
    FilledStep(grid, s1, s, x, y, c, i);
    GrowsTrans(s0, h0, s1, h1, s, h);
    if Completes(sol, s0) && Agrees(sol, grid) {
      AgreesAt(sol, grid, x, y, c, i);
      assert Fits(sol, s1, c, i);
    }
  }

  /** One checked seeding step on cell (x, y), from `s1` to `s`, keeps
      `SeedsPlaced` when the seed was a candidate or already there. */
  lemma SeedPlacedStep(grid: seq<seq<int>>, s0: seq<Cell>, h0: seq<seq<bool>>, s1: seq<Cell>, h1: seq<seq<bool>>,
                       s: seq<Cell>, h: seq<seq<bool>>, x: nat, y: nat, c: nat, i: int, sol: seq<seq<int>>)
    requires IsGrid(grid) && x < 9 && y < 9 && c == y * 9 + x && i == grid[y][x] && Shaped(s0, h0) && Shaped(s1, h1) && Shaped(s, h)
    requires SeedsPlaced(grid, s0, h0, s1, h1, x * 9 + y, sol) && Grows(s1, h1, s, h)
    requires Consistent(s1) ==> Consistent(s)
    requires i != 0 ==> s[c].val == i
    requires Fits(sol, s1, c, i) ==> Completes(sol, s)
    ensures SeedsPlaced(grid, s0, h0, s, h, x * 9 + y + 1, sol)
  {
    SeededStep(grid, s1, s, x, y, c, i);
    GrowsTrans(s0, h0, s1, h1, s, h);
    if Completes(sol, s0) && Agrees(sol, grid) {
      AgreesAt(sol, grid, x, y, c, i);
      assert Fits(sol, s1, c, i);
    }
  }

  /** A seed the checked seeding refuses shows that no solution of the
      starting board agrees with the seeds. */
  lemma SeedRefused(grid: seq<seq<int>>, s0: seq<Cell>, h0: seq<seq<bool>>, s1: seq<Cell>, h1: seq<seq<bool>>,
                    x: nat, y: nat, c: nat, i: int, sol: seq<seq<int>>)
    requires IsGrid(grid) && x < 9 && y < 9 && c == y * 9 + x && i == grid[y][x]
    requires Shaped(s0, h0) && Sound(s1, h1) && SeedsPlaced(grid, s0, h0, s1, h1, x * 9 + y, sol)
    requires i != 0 && !(s1[c].val == i || (s1[c].val == 0 && s1[c].canBe[i - 1]))
    ensures !(Completes(sol, s0) && Agrees(sol, grid))
  {
    if Completes(sol, s0) && Agrees(sol, grid) {
      AgreesAt(sol, grid, x, y, c, i);
      if s1[c].val == 0 {
        SolutionCandidates(s1, h1, sol, c);
      } else {
        ExtendsCell(sol, s1, c);
      }
    }
  }

  /** A solution that agrees with the seeds holds seed `grid[y][x]` at
      cell (x, y). */
  lemma AgreesAt(sol: seq<seq<int>>, grid: seq<seq<int>>, x: nat, y: nat, c: nat, i: int)
    requires IsGrid(sol) && IsGrid(grid) && Agrees(sol, grid) && x < 9 && y < 9
    requires c == y * 9 + x && i == grid[y][x]
    ensures i != 0 ==> At(sol, c) == i
  {
    ScanAt(grid, x, y);
    ScanAt(sol, x, y);
  }

  /** The cell at scan position `x * 9 + y` is `(x, y)`, and the grid holds
      `grid[y][x]` for it. */
  lemma ScanAt(grid: seq<seq<int>>, x: nat, y: nat)
    requires IsGrid(grid) && x < 9 && y < 9
    ensures ScanCell(x * 9 + y) == y * 9 + x && At(grid, y * 9 + x) == grid[y][x]
  {
    ScanCoords(x, y);
    AtCoords(grid, x, y);
  }

  /** Cell `y * 9 + x` of a grid is `grid[y][x]`. */
  lemma AtCoords(grid: seq<seq<int>>, x: nat, y: nat)
    requires IsGrid(grid) && x < 9 && y < 9
    ensures At(grid, y * 9 + x) == grid[y][x]
  {
    DivMod9(y * 9 + x, y, x);
  }

  /** The scan of `Board.find_best_cell_to_guess` from scan position `p`,
      where `min` is the smallest non-zero count seen so far (the starting
      bound while none) and `best` the first cell that has it (81 while
      none). The first cell with two candidates ends the scan; otherwise the
      scan ends on `best`. */
  ghost function Scan(s: seq<Cell>, p: nat, min: int, best: nat): nat
    requires |s| == 81 && p <= 81
    decreases 81 - p
  {
    if p == 81 then best
    else
      ScanInverse(p, 0);
      var c := ScanCell(p);
      if s[c].count != 0 && s[c].count < min then
        if s[c].count == 2 then c else Scan(s, p + 1, s[c].count, c)
      else
        Scan(s, p + 1, min, best)
  }

  /** One step of the scan at cell (x, y), scan position `x * 9 + y`. */
  lemma ScanStep(s: seq<Cell>, x: nat, y: nat, p: nat, c: nat, min: int, best: nat)
    requires |s| == 81 && x < 9 && y < 9 && p == x * 9 + y && c == y * 9 + x
    ensures Scan(s, p, min, best) ==
      if s[c].count != 0 && s[c].count < min then
        if s[c].count == 2 then c else Scan(s, p + 1, s[c].count, c)
      else
        Scan(s, p + 1, min, best)
  {
    ScanCoords(x, y);
  }

  /** The count of the cell at scan position `q`. */
  ghost function Seen(s: seq<Cell>, q: nat): int
    requires |s| == 81 && q < 81
  {
    ScanInverse(q, 0);
    s[ScanCell(q)].count
  }

  /** What the scan knows before position `p`, having started from the bound
      `top`: with no cell chosen, every count seen is 0 or at least `top`;
      with a cell chosen, it was seen, its count is below `top` and not 2,
      no count seen is smaller and none seen before it is equal. */
  ghost predicate Scanned(s: seq<Cell>, p: nat, min: int, best: nat, top: int)
    requires |s| == 81 && p <= 81
  {
    && best <= 81
    && (best == 81 ==> min == top && forall q | 0 <= q < p :: Seen(s, q) == 0 || Seen(s, q) >= top)
    && (best < 81 ==>
        && ScanPos(best) < p && min == s[best].count && 0 < min < top && min != 2
        && (forall q | 0 <= q < p :: Seen(s, q) == 0 || Seen(s, q) >= min)
        && (forall q | 0 <= q < ScanPos(best) :: Seen(s, q) == 0 || Seen(s, q) > min))
  }

  /** What the scan settles on, counted in scan positions. */
  ghost predicate Settles(s: seq<Cell>, r: nat, top: int)
    requires |s| == 81
  {
    && r <= 81
    && (r == 81 ==> forall q | 0 <= q < 81 :: Seen(s, q) == 0 || Seen(s, q) >= top)
    && (r < 81 ==>
        && ScanPos(r) < 81
        && 0 < s[r].count < top
        && (forall q | 0 <= q < ScanPos(r) :: Seen(s, q) == 0 || Seen(s, q) > s[r].count)
        && (s[r].count == 2 || forall q | 0 <= q < 81 :: Seen(s, q) == 0 || Seen(s, q) >= s[r].count))
  }

  /** A cell with two candidates below the current minimum ends the scan. */
  lemma ScanStops(s: seq<Cell>, p: nat, min: int, best: nat, top: int)
    requires |s| == 81 && p < 81 && Scanned(s, p, min, best, top)
    requires Seen(s, p) == 2 && 2 < min
    ensures Settles(s, ScanCell(p), top)
  {
    ScanInverse(p, 0);
  }

  /** A cell with fewer candidates than the current minimum becomes the choice. */
  lemma ScanTakes(s: seq<Cell>, p: nat, min: int, best: nat, top: int)
    requires |s| == 81 && p < 81 && Scanned(s, p, min, best, top)
    requires 0 < Seen(s, p) < min && Seen(s, p) != 2
    ensures Scanned(s, p + 1, Seen(s, p), ScanCell(p), top)
  {
    ScanInverse(p, 0);
  }

  /** Any other cell leaves the choice alone. */
  lemma ScanSkips(s: seq<Cell>, p: nat, min: int, best: nat, top: int)
    requires |s| == 81 && p < 81 && Scanned(s, p, min, best, top)
    requires Seen(s, p) == 0 || Seen(s, p) >= min
    ensures Scanned(s, p + 1, min, best, top)
  {
  }

  /** What the scan's result is, counted in scan positions. */
  lemma {:induction false} ScanResult(s: seq<Cell>, p: nat, min: int, best: nat, top: int)
    requires CellsWf(s) && p <= 81 && Scanned(s, p, min, best, top)
    decreases 81 - p
    ensures Settles(s, Scan(s, p, min, best), top)
  {
    if p < 81 {
      ScanInverse(p, 0);
      var c := ScanCell(p);
      assert s[c].count == Seen(s, p) && Seen(s, p) >= 0;
      if s[c].count != 0 && s[c].count < min {
        if s[c].count == 2 {
          ScanStops(s, p, min, best, top);
        } else {
          ScanTakes(s, p, min, best, top);
          ScanResult(s, p + 1, s[c].count, c, top);
        }
      } else {
        ScanSkips(s, p, min, best, top);
        ScanResult(s, p + 1, min, best, top);
      }
    } else if best < 81 {
      assert Settles(s, best, top);
    }
  }

  /** The whole scan from the bound `top`, counted in cells: it finds nothing
      exactly when every count is 0 or at least `top`; otherwise it picks a
      cell with a count in 1..`top - 1` that is 2 or the smallest non-zero
      count on the board, and every cell scanned before it has count 0 or a
      larger count. */
  lemma ScanChoice(s: seq<Cell>, top: int)
    requires CellsWf(s)
    ensures var r := Scan(s, 0, top, 81);
      && r <= 81
      && (r == 81 <==> forall c | 0 <= c < 81 :: s[c].count == 0 || s[c].count >= top)
      && (r < 81 ==>
          && 0 < s[r].count < top
          && (forall c | 0 <= c < 81 && ScanPos(c) < ScanPos(r) :: s[c].count == 0 || s[c].count > s[r].count)
          && (s[r].count == 2 || forall c | 0 <= c < 81 && s[c].count != 0 :: s[r].count <= s[c].count))
  {
    var r := Scan(s, 0, top, 81);
    ScanResult(s, 0, top, 81, top);
    forall c | 0 <= c < 81
      ensures ScanPos(c) < 81 && Seen(s, ScanPos(c)) == s[c].count
    {
      ScanInverse(0, c);
    }
  }

  /** The choice `find_best_cell_to_guess` evidently intends, the scan started
      above every possible count: no cell exactly when no cell has a
      candidate left; otherwise a cell with candidates whose count is 2 or the
      smallest non-zero count on the board, and every cell scanned before it
      has none or more. */
  lemma BestGuess(s: seq<Cell>)
    requires CellsWf(s)
    ensures var r := Scan(s, 0, 10, 81);
      && r <= 81
      && (r == 81 <==> forall c | 0 <= c < 81 :: s[c].count == 0)
      && (r < 81 ==>
          && s[r].count != 0
          && (forall c | 0 <= c < 81 && ScanPos(c) < ScanPos(r) :: s[c].count == 0 || s[c].count > s[r].count)
          && (s[r].count == 2 || forall c | 0 <= c < 81 && s[c].count != 0 :: s[r].count <= s[c].count))
  {
    ScanChoice(s, 10);
    forall c | 0 <= c < 81
      ensures s[c].count <= 9
    {
      TruesBound(s[c].canBe);
    }
  }

  /** On a settled board a cell with candidates is empty. */
  lemma CountedEmpty(s: seq<Cell>, c: nat)
    requires CellsWf(s) && Settled(s) && c < 81 && s[c].count != 0
    ensures s[c].val == 0
  {
    TruesZero(s[c].canBe);
  }

  /** A board with an empty cell and no candidate anywhere has no solution. */
  lemma NothingToGuess(s: seq<Cell>, h: seq<seq<bool>>, sol: seq<seq<int>>)
    requires Sound(s, h) && Empty(s) != 0 && forall c | 0 <= c < 81 :: s[c].count == 0
    ensures !Completes(sol, s)
  {
    EmptyBound(s);
    var c :| 0 <= c < 81 && s[c].val == 0;
    TruesZero(s[c].canBe);
    if Completes(sol, s) {
      SolutionCandidates(s, h, sol, c);
    }
  }

  /** A board that a solution extends is consistent: two filled peers hold
      the solution's digits, which differ. */
  lemma CompletesConsistent(s: seq<Cell>, sol: seq<seq<int>>)
    requires |s| == 81 && Completes(sol, s)
    ensures Consistent(s)
  {
    ExtendsAll(sol, s);
    ConsistentAll(s);
    forall c | 0 <= c < 81
      ensures Unclashed(s, c)
    {
      forall e | 0 <= e < 81 && e != c && Peers(c, e) && s[c].val != 0 && s[e].val != 0
        ensures s[c].val != s[e].val
      {
        var k :| 0 <= k < 3 && LineOf(c, k) == LineOf(e, k);
        MemberSlot(c, k);
        MemberSlot(e, k);
        LineDistinct(sol, LineOf(c, k), Slot(c, k), Slot(e, k));
      }
    }
  }

  /** A full board that a solution extends holds exactly that solution, and
      is consistent. */
  lemma FullExtension(s: seq<Cell>, sol: seq<seq<int>>)
    requires |s| == 81 && IsSolution(sol) && Extends(sol, s)
    requires forall c | 0 <= c < 81 :: s[c].val != 0
    ensures forall c | 0 <= c < 81 :: s[c].val == At(sol, c)
    ensures Consistent(s)
  {
    ExtendsAll(sol, s);
    CompletesConsistent(s, sol);
  }

  /** A board whose seed cells are all filled, and that a solution agreeing
      with the seeds extends, holds every seed. */
  lemma FilledSeeded(grid: seq<seq<int>>, s: seq<Cell>, sol: seq<seq<int>>)
    requires IsGrid(grid) && |s| == 81 && Completes(sol, s) && Agrees(sol, grid)
    requires forall c | 0 <= c < 81 :: At(grid, c) != 0 ==> s[c].val != 0
    ensures Seeded(grid, s)
  {
    ExtendsAll(sol, s);
  }

  /** The recursion of `Board.solve` after `update`: what holds from `s1`,
      the board after `update`, holds from `s0`, the board before it. */
  lemma SolveTail(s0: seq<Cell>, h0: seq<seq<bool>>, s1: seq<Cell>, h1: seq<seq<bool>>, s: seq<Cell>, h: seq<seq<bool>>,
                  found: bool, grid: seq<seq<int>>, sol: seq<seq<int>>)
    requires Shaped(s0, h0) && Shaped(s1, h1) && Shaped(s, h)
    requires Cascaded(s0, h0, s1, h1, sol) && Grows(s1, h1, s, h)
    requires Consistent(s1) ==> Consistent(s)
    requires found ==> IsGrid(grid) && Extends(grid, s1)
    requires found && Consistent(s1) ==> IsSolution(grid)
    requires Completes(sol, s1) ==> found
    ensures Grows(s0, h0, s, h) && (Consistent(s0) ==> Consistent(s))
    ensures found ==> Extends(grid, s0)
    ensures found && Consistent(s0) ==> IsSolution(grid)
    ensures Completes(sol, s0) ==> found
  {
    GrowsTrans(s0, h0, s1, h1, s, h);
    if found {
      ExtendsKept(grid, s0, s1);
    }
  }

  /** A grid that extends a board holding every seed agrees with the seeds. */
  lemma SeededAgrees(grid: seq<seq<int>>, s: seq<Cell>, r: seq<seq<int>>)
    requires IsGrid(grid) && IsGrid(r) && |s| == 81 && Seeded(grid, s) && Extends(r, s)
    ensures Agrees(r, grid)
  {
    ExtendsAll(r, s);
  }

  /** A board re-seeded from a solution holds exactly that solution and is
      consistent. */
  lemma Adopted(sol: seq<seq<int>>, s: seq<Cell>)
    requires IsSolution(sol) && |s| == 81 && FilledBefore(sol, s, 81) && Completes(sol, s)
    ensures forall c | 0 <= c < 81 :: s[c].val == At(sol, c)
    ensures Consistent(s)
  {
    FilledAll(sol, s);
    FullExtension(s, sol);
  }

  /** A guess board, seeded from the snapshot `grid` of `s0` and then grown,
      that has one more cell filled than `s0` has fewer empty cells. */
  lemma GuessShrinks(s0: seq<Cell>, grid: seq<seq<int>>, seeded: seq<Cell>, s: seq<Cell>, c: nat)
    requires IsGrid(grid) && |s0| == 81 && |seeded| == 81 && |s| == 81 && c < 81
    requires forall e | 0 <= e < 81 :: At(grid, e) == s0[e].val
    requires Seeded(grid, seeded) && Kept(seeded, s) && s0[c].val == 0 && s[c].val != 0
    ensures Empty(s) < Empty(s0)
  {
    EmptyShrinks(s0, s);
  }

  /** A solution of a guess board, seeded from the snapshot `grid` of `s0`
      and then grown, is a solution of `s0`. */
  lemma GuessFound(s0: seq<Cell>, grid: seq<seq<int>>, seeded: seq<Cell>, s: seq<Cell>, sol: seq<seq<int>>)
    requires IsGrid(grid) && |s0| == 81 && |seeded| == 81 && |s| == 81
    requires forall e | 0 <= e < 81 :: At(grid, e) == s0[e].val
    requires Seeded(grid, seeded) && Kept(seeded, s) && IsSolution(sol) && Extends(sol, s)
    ensures Extends(sol, s0)
  {
    ExtendsKept(sol, seeded, s);
    SnapshotExtends(sol, s0, grid, seeded);
  }

  /** `GuessShrinks` and `GuessFound` together, for every solution. */
  lemma Guessed(s0: seq<Cell>, grid: seq<seq<int>>, seeded: seq<Cell>, s: seq<Cell>, c: nat)
    requires IsGrid(grid) && |s0| == 81 && |seeded| == 81 && |s| == 81 && c < 81
    requires forall e | 0 <= e < 81 :: At(grid, e) == s0[e].val
    requires Seeded(grid, seeded) && Kept(seeded, s) && s0[c].val == 0 && s[c].val != 0
    ensures Empty(s) < Empty(s0)
    ensures forall g | IsSolution(g) && Extends(g, s) :: Extends(g, s0)
  {
    GuessShrinks(s0, grid, seeded, s, c);
    forall g | IsSolution(g) && Extends(g, s)
      ensures Extends(g, s0)
    {
      GuessFound(s0, grid, seeded, s, g);
    }
  }

  /** A solution of a sound board puts in an empty cell one of the digits
      `get_pos` lists for it. */
  lemma GuessCovers(s: seq<Cell>, h: seq<seq<bool>>, sol: seq<seq<int>>, c: nat)
    requires Sound(s, h) && Completes(sol, s) && c < 81 && s[c].val == 0
    ensures At(sol, c) in Candidates(s[c].canBe)
  {
    SolutionCandidates(s, h, sol, c);
    CandidatesMembers(s[c].canBe);
  }

  /** What `assign` does to a cell whose peer already holds the digit: it
      places the digit anyway (it keeps every filled cell and gives the empty
      cell `i`), and the board then holds `i` twice in one line. */
  lemma AssignClash(s0: seq<Cell>, s: seq<Cell>, b: nat, c: nat, i: int)
    requires |s0| == 81 && |s| == 81 && b < 81 && c < 81 && b != c && Peers(b, c)
    requires s0[b].val == i && i != 0 && Kept(s0, s) && s[c].val == i
    ensures !Consistent(s)
  {
    ConsistentAll(s);
    assert Peers(c, b) && !Unclashed(s, c);
  }

  /** Cell `c` of the board the constructor leaves for a grid whose only
      seed is a 1 at (0, 0): that cell is filled, its peers have lost
      candidate 1 (keeping eight) and every other cell is fresh. */
  ghost function OneCell(c: nat): Cell
    requires c < 81
  {
    if c == 0 then Cell(1, NoCandidates, 0) else if Peers(0, c) then Cell(0, seq(9, d => d != 0), 8) else Fresh
  }

  ghost function OneBoard(): seq<Cell>
  {
    seq(81, c requires 0 <= c < 81 => OneCell(c))
  }

  /** Its `has` flags: digit 1 in row 0, column 0 and square 0. */
  ghost function OneFlags(): seq<seq<bool>>
  {
    seq(27, g => seq(9, d => d == 0 && g % 9 == 0))
  }

  /** The cells of `OneBoard`: counts 0, 8 and 9 only, and 8 exactly at the
      peers of (0, 0). */
  lemma OneCells()
    ensures CellsWf(OneBoard()) && Settled(OneBoard())
    ensures forall c | 0 <= c < 81 :: OneBoard()[c] == OneCell(c)
    ensures forall c | 0 <= c < 81 :: OneBoard()[c].count == (if c == 0 then 0 else if Peers(0, c) then 8 else 9)
  {
    FreshWf();
    TruesClear(AllCandidates, 0);
    assert AllCandidates[0 := false] == seq(9, d => d != 0);
  }

  /** Cell `c` of `OneBoard`: only (0, 0) is filled, with 1, and an open
      cell lacks only candidate 1, and only when it is a peer of (0, 0). */
  lemma OneAt(c: nat, d: nat)
    requires c < 81 && d < 9
    ensures OneBoard()[c] == OneCell(c) && |OneCell(c).canBe| == 9
    ensures OneCell(c).val == (if c == 0 then 1 else 0)
    ensures c != 0 ==> (!OneCell(c).canBe[d] <==> d == 0 && Peers(0, c))
  {
  }

  /** The lines flagged in `OneFlags` are exactly those through (0, 0). */
  lemma OneFlagged(c: nat, k: nat, d: nat)
    requires c < 81 && k < 3 && d < 9
    ensures LineOf(0, k) == 9 * k
    ensures OneFlags()[LineOf(c, k)][d] <==> d == 0 && LineOf(c, k) == LineOf(0, k)
  {
  }

  /** `OneBoard` keeps every invariant of a board: its flags agree with its
      cells and no digit is placed twice in a line. */
  lemma OneSound()
    ensures Sound(OneBoard(), OneFlags()) && Consistent(OneBoard())
  {
    OneRecorded();
    OneExcluded();
    OneJustified();
    OneHasSound();
    var s := OneBoard();
    forall c | 0 <= c < 81
      ensures Unclashed(s, c)
    {
      forall e | 0 <= e < 81 && e != c
        ensures s[c].val != 0 ==> s[c].val != s[e].val
      {
        OneAt(c, 0);
        OneAt(e, 0);
      }
    }
    ConsistentAll(s);
  }

  lemma OneRecorded()
    ensures Shaped(OneBoard(), OneFlags()) && Recorded(OneBoard(), OneFlags())
  {
    var s, h := OneBoard(), OneFlags();
    OneCells();
    forall c, k | 0 <= c < 81 && 0 <= k < 3
      ensures s[c].val != 0 ==> h[LineOf(c, k)][s[c].val - 1]
    {
      OneAt(c, 0);
      OneFlagged(c, k, 0);
    }
    RecordedAll(s, h);
  }

  lemma OneExcluded()
    ensures Shaped(OneBoard(), OneFlags()) && Excluded(OneBoard(), OneFlags())
  {
    var s, h := OneBoard(), OneFlags();
    OneCells();
    forall c, k, d | 0 <= c < 81 && 0 <= k < 3 && 0 <= d < 9
      ensures s[c].val == 0 && h[LineOf(c, k)][d] ==> !s[c].canBe[d]
    {
      OneAt(c, d);
      OneFlagged(c, k, d);
    }
    ExcludedAll(s, h);
  }

  lemma OneJustified()
    ensures Shaped(OneBoard(), OneFlags()) && Justified(OneBoard(), OneFlags())
  {
    var s, h := OneBoard(), OneFlags();
    OneCells();
    forall c, d | 0 <= c < 81 && 0 <= d < 9
      ensures s[c].val == 0 && !s[c].canBe[d] ==> h[LineOf(c, 0)][d] || h[LineOf(c, 1)][d] || h[LineOf(c, 2)][d]
    {
      OneAt(c, d);
      OneFlagged(c, 0, d);
      OneFlagged(c, 1, d);
      OneFlagged(c, 2, d);
    }
    JustifiedAll(s, h);
  }

  lemma OneHasSound()
    ensures Shaped(OneBoard(), OneFlags()) && HasSound(OneBoard(), OneFlags())
  {
    var s, h := OneBoard(), OneFlags();
    OneCells();
    forall g, d | 0 <= g < 27 && 0 <= d < 9
      ensures h[g][d] ==> exists j | 0 <= j < 9 :: s[Member(g, j)].val == d + 1
    {
      if h[g][d] {
        assert d == 0 && (g == 0 || g == 9 || g == 18);
        assert Member(g, 0) == 0;
        OneAt(0, 0);
      }
    }
    HasSoundAll(s, h);
  }

  /** Both scans of `OneBoard` choose cell (0, 1), the first peer of (0, 0)
      they meet, with eight candidates. */
  lemma OneScan(top: int)
    requires top == 9 || top == 10
    ensures Scan(OneBoard(), 0, top, 81) == 9
  {
    var s := OneBoard();
    OneCells();
    ScanChoice(s, top);
    var r := Scan(s, 0, top, 81);
    assert Peers(0, 9) && s[9].count == 8;
    ScanInverse(1, r);
    ScanInverse(0, 0);
    assert ScanPos(9) == 1;
  }

  /** The fallback of `find_best_cell_to_guess`: on `OneBoard` both scans
      choose cell (0, 1), which cannot take 1 since (0, 0) holds it, but after
      a full scan the as-written function returns the candidates of the last
      cell scanned, (8, 8), whose first is 1. */
  lemma FallbackExhibit()
    ensures Sound(OneBoard(), OneFlags()) && Consistent(OneBoard())
    ensures Scan(OneBoard(), 0, 9, 81) == 9 && Scan(OneBoard(), 0, 10, 81) == 9
    ensures OneBoard()[9].count == 8 && 1 !in Candidates(OneBoard()[9].canBe)
    ensures Peers(0, 9) && OneBoard()[0].val == 1
    ensures |Candidates(OneBoard()[80].canBe)| == 9 && Candidates(OneBoard()[80].canBe)[0] == 1
  {
    OneSound();
    OneScan(9);
    OneScan(10);
    OneAt(0, 0);
    OneAt(9, 0);
    OneAt(80, 0);
    assert Peers(0, 9) && !Peers(0, 80);
    CandidatesMembers(OneBoard()[9].canBe);
    FreshFirst();
  }

  /** A fresh cell offers all nine digits, 1 first. */
  lemma FreshFirst()
    ensures |Candidates(Fresh.canBe)| == 9 && Candidates(Fresh.canBe)[0] == 1
  {
    var cs := Candidates(Fresh.canBe);
    FreshWf();
    CandidatesMembers(Fresh.canBe);
    CandidatesAscending(Fresh.canBe);
    CandidatesCount(Fresh.canBe);
    assert 1 in cs && cs[0] in cs;
    var p :| 0 <= p < |cs| && cs[p] == 1;
    assert cs[0] <= cs[p];
  }

  /** Every cell of the blank board has nine candidates. */
  lemma BlankCounts()
    ensures CellsWf(BlankCells) && forall c | 0 <= c < 81 :: BlankCells[c].count == 9
  {
    FreshWf();
  }

  /** On the blank board every cell has nine candidates, so the as-written
      scan, which starts at nine, chooses nothing and leaves the coordinates
      at (9, 9), while cell (8, 8) still offers nine candidates to try. */
  lemma BlankGuessExhibit()
    ensures Scan(BlankCells, 0, 9, 81) == 81
    ensures |Candidates(BlankCells[80].canBe)| == 9
  {
    BlankCounts();
    ScanChoice(BlankCells, 9);
    CandidatesCount(BlankCells[80].canBe);
  }

  /** The intended scan chooses cell (0, 0) of the blank board. */
  lemma BlankGuess()
    ensures Scan(BlankCells, 0, 10, 81) == 0
  {
    BlankCounts();
    ScanChoice(BlankCells, 10);
    var r := Scan(BlankCells, 0, 10, 81);
    ScanInverse(0, r);
    assert ScanPos(0) == 0;
  }
}
