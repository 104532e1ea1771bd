/** The solver's board: 81 cells in an array, indexed `y * 9 + x`, and the
    `has` flags of its 27 lines. The methods of `Cell`, `Line` and `Board`
    become methods of `Board` that name a cell or a line by its index. */
module Sudoku {
  import opened Grid
  import opened Cells
  import opened State
  import opened Solving
  import opened Wrappers

  class Board {
    var cells: array<Cell>
    var has: array<seq<bool>>
    const lines: seq<seq<nat>>
    const groups: seq<seq<nat>>

    /** Wired tables and a sound snapshot: counts match the candidate slots,
        placed digits are recorded and struck, and every record and every
        struck candidate has a reason. */
    ghost predicate Valid()
      reads this, cells, has
    {
      cells.Length == 81 && has.Length == 27 && Wired(lines, groups) && Sound(cells[..], has[..])
    }

    /** The arrays have their sizes, the tables are wired and the snapshot is shaped. */
    ghost predicate Framed()
      reads this, cells, has
    {
      cells.Length == 81 && has.Length == 27 && Wired(lines, groups) && Shaped(cells[..], has[..])
    }

    /** `Cell.cant_be(i)`: an empty cell that still lists `i` loses it and its
        count drops by one; a filled cell, or one without `i`, is left alone. */
    method CellCantBe(e: nat, i: int)
      requires cells.Length == 81 && e < 81 && 1 <= i <= 9 && Wf(cells[e])
      modifies cells
      ensures cells[..] == old(cells[..])[e := CantBe(old(cells[e]), i)]
    {
      if cells[e].val == 0 {
        if cells[e].canBe[i - 1] {
          TruesClear(cells[e].canBe, i - 1);
          cells[e] := cells[e].(count := cells[e].count - 1, canBe := cells[e].canBe[i - 1 := false]);
        }
      }
    }

    /** `Line.cant_be(i)`: record digit `i` in line `g` and strike it from every
        empty member. The ghost `c` is the member just given `i`, the reason
        for the record. */
    method LineCantBe(g: nat, i: int, ghost c: nat)
      requires Framed() && g < 27 && 1 <= i <= 9 && c < 81 && InLine(c, g) && cells[c].val == i
      modifies cells, has
      ensures Framed()
      ensures StruckInLine(old(cells[..]), old(has[..]), cells[..], has[..], g, i)
      ensures old(Excluded(cells[..], has[..])) ==> Excluded(cells[..], has[..])
      ensures old(Justified(cells[..], has[..])) ==> Justified(cells[..], has[..])
      ensures old(HasSound(cells[..], has[..])) ==> HasSound(cells[..], has[..])
      ensures NakedSingles(cells[..]) <= old(NakedSingles(cells[..])) + LineSet(g)
    {
      has[g] := has[g][i - 1 := true];
      for j := 0 to 9
        invariant has[..] == old(has[..])[g := old(has[g])[i - 1 := true]]
        invariant cells[..] == StrikeFirst(old(cells[..]), g, i, j)
      {
        CellCantBe(lines[g][j], i);
      }
      ghost var s0, h0 := old(cells[..]), old(has[..]);
      StrikeAll(s0, h0, g, i);
      if Excluded(s0, h0) {
        StruckExcluded(s0, h0, cells[..], has[..], g, i);
      }
      if Justified(s0, h0) {
        StruckJustified(s0, h0, cells[..], has[..], g, i);
      }
      if HasSound(s0, h0) {
        StruckHasSound(s0, h0, cells[..], has[..], g, i, c);
      }
      StruckSingles(s0, h0, cells[..], has[..], g, i);
    }
  
    /** `Cell.assign(i)`: an empty cell takes digit `i`, its row, column and
        square record `i` and strike it from their empty members, each of those
        lines then fills any member left with one candidate, and the cell's own
        candidates are cleared. A filled cell, or `i == 0`, is left alone. The
        cascade never reports a contradiction: `ok` always comes back true.
        `busy` holds the cells whose own assignment is still in progress. */
    method Assign(c: nat, i: int, ghost busy: set<nat>, ghost sol: seq<seq<int>>) returns (ok: bool)
      requires Valid() && c < 81 && 0 <= i <= 9
      requires Busy(cells[..], busy) && SettledExcept(cells[..], busy)
      modifies cells, has
      decreases Empty(cells[..]), 1
      ensures Valid() && Busy(cells[..], busy) && SettledExcept(cells[..], busy)
      ensures Grows(old(cells[..]), old(has[..]), cells[..], has[..])
      ensures ok
      ensures old(cells[c].val) != 0 || i == 0 ==> cells[..] == old(cells[..]) && has[..] == old(has[..])
      ensures old(cells[c].val) == 0 && i != 0 ==> cells[c] == Cell(i, NoCandidates, 0)
      ensures old(cells[c].val) == 0 && i != 0 ==> NakedSingles(cells[..]) <= old(NakedSingles(cells[..])) - Reached(c, 3)
      ensures old(Consistent(cells[..])) && (old(cells[c].val) == 0 && i != 0 ==> old(cells[c].canBe[i - 1])) ==>
        Consistent(cells[..])
      ensures (old(cells[c].val) == 0 && i != 0 ==> old(cells[c].canBe[i - 1])) ==> Placed(old(cells[..]), cells[..])
      ensures old(Fits(sol, cells[..], c, i)) ==> Completes(sol, cells[..])
    {
      if cells[c].val == 0 && i != 0 {
        ok := AssignEmpty(c, i, busy, sol);
      } else {
        ok := true;
      }
    }

    /** `Cell.assign(i)` on an empty cell with `i != 0`. */
    method AssignEmpty(c: nat, i: int, ghost busy: set<nat>, ghost sol: seq<seq<int>>) returns (ok: bool)
      requires Valid() && c < 81 && 1 <= i <= 9 && cells[c].val == 0
      requires Busy(cells[..], busy) && SettledExcept(cells[..], busy)
      modifies cells, has
      decreases Empty(cells[..]), 0
      ensures Valid() && Busy(cells[..], busy) && SettledExcept(cells[..], busy)
      ensures Grows(old(cells[..]), old(has[..]), cells[..], has[..])
      ensures ok
      ensures cells[c] == Cell(i, NoCandidates, 0)
      ensures NakedSingles(cells[..]) <= old(NakedSingles(cells[..])) - Reached(c, 3)
      ensures old(Consistent(cells[..])) && old(cells[c].canBe[i - 1]) ==> Consistent(cells[..])
      ensures old(cells[c].canBe[i - 1]) ==> Placed(old(cells[..]), cells[..])
      ensures old(Fits(sol, cells[..], c, i)) ==> Completes(sol, cells[..])
    {
      ghost var s0, h0 := cells[..], has[..];
      Place(c, i, busy, sol);
      ghost var s1, h1 := cells[..], has[..];
      ok := GroupsCheck(c, busy + {c}, sol);
      if ok {
        ghost var s2 := cells[..];
        Clear(c, busy, sol);
        EmptyAssigned(s0, h0, s1, h1, s2, has[..], cells[..], c, i, sol);
      }
    }

    /** The first half of `Cell.assign(i)` on an empty cell: take the value,
        then `line.cant_be(i)` for its row, column and square. */
    method Place(c: nat, i: int, ghost busy: set<nat>, ghost sol: seq<seq<int>>)
      requires Valid() && c < 81 && 1 <= i <= 9 && cells[c].val == 0
      requires Busy(cells[..], busy) && SettledExcept(cells[..], busy)
      modifies cells, has
      ensures Valid() && Busy(cells[..], busy + {c}) && SettledExcept(cells[..], busy + {c})
      ensures Grows(old(cells[..]), old(has[..]), cells[..], has[..])
      ensures Empty(cells[..]) < old(Empty(cells[..]))
      ensures cells[c].val == i
      ensures NakedSingles(cells[..]) <= old(NakedSingles(cells[..])) + Reached(c, 3)
      ensures old(Consistent(cells[..])) && old(cells[c].canBe[i - 1]) ==> Consistent(cells[..])
      ensures old(cells[c].canBe[i - 1]) ==> Placed(old(cells[..]), cells[..])
      ensures old(Fits(sol, cells[..], c, i)) ==> Completes(sol, cells[..])
    {
      ghost var s0, h0 := cells[..], has[..];
      PlaceSound(s0, h0, c, i);
      cells[c] := cells[c].(val := i);
      assert cells[..] == s0[c := s0[c].(val := i)];
      ghost var s1 := cells[..];
      GroupsCantBe(c, i);
      PlaceDone(s0, h0, s1, cells[..], has[..], c, i, busy, sol);
    }

    /** The end of `Cell.assign(i)`: the filled cell's candidates are cleared. */
    method Clear(c: nat, ghost busy: set<nat>, ghost sol: seq<seq<int>>)
      requires Valid() && c < 81 && cells[c].val != 0
      requires Busy(cells[..], busy + {c}) && SettledExcept(cells[..], busy + {c})
      modifies cells
      ensures cells[..] == old(cells[..])[c := Cell(old(cells[c].val), NoCandidates, 0)]
      ensures Valid() && Busy(cells[..], busy) && SettledExcept(cells[..], busy)
      ensures Grows(old(cells[..]), has[..], cells[..], has[..]) && Placed(old(cells[..]), cells[..])
      ensures NakedSingles(cells[..]) <= old(NakedSingles(cells[..]))
      ensures old(Consistent(cells[..])) ==> Consistent(cells[..])
      ensures old(Completes(sol, cells[..])) ==> Completes(sol, cells[..])
    {
      ghost var s0 := cells[..];
      Cleared(s0, has[..], c, busy, sol);
      cells[c] := Cell(cells[c].val, NoCandidates, 0);
      assert cells[..] == s0[c := Cell(s0[c].val, NoCandidates, 0)];
    }

    /** The first loop of `Cell.assign`: `line.cant_be(i)` for the row, column
        and square of the cell `c`, which already holds `i`. */
    method GroupsCantBe(c: nat, i: int)
      requires Framed() && c < 81 && 1 <= i <= 9 && cells[c].val == i
      requires Excluded(cells[..], has[..]) && Justified(cells[..], has[..]) && HasSound(cells[..], has[..])
      modifies cells, has
      ensures Framed()
      ensures Excluded(cells[..], has[..]) && Justified(cells[..], has[..]) && HasSound(cells[..], has[..])
      ensures Struck(old(cells[..]), old(has[..]), cells[..], has[..])
      ensures forall k | 0 <= k < 3 :: has[..][LineOf(c, k)][i - 1]
      ensures NakedSingles(cells[..]) <= old(NakedSingles(cells[..])) + Reached(c, 3)
    {
      ghost var s0, h0 := cells[..], has[..];
      for k := 0 to 3
        invariant Framed() && cells[c].val == i
        invariant Excluded(cells[..], has[..]) && Justified(cells[..], has[..]) && HasSound(cells[..], has[..])
        invariant Struck(s0, h0, cells[..], has[..])
        invariant forall k' | 0 <= k' < k :: has[..][LineOf(c, k')][i - 1]
        invariant NakedSingles(cells[..]) <= NakedSingles(s0) + Reached(c, k)
      {
        ghost var s1, h1 := cells[..], has[..];
        LineCantBe(groups[c][k], i, c);
        StruckInLineStruck(s1, h1, cells[..], has[..], groups[c][k], i);
        StruckTrans(s0, h0, s1, h1, cells[..], has[..]);
        ReachedStep(c, k);
      }
    }

    /** The second loop of `Cell.assign`: `line.check_possibilities()` for the
        row, column and square of `c`, stopping at the first failure. */
    method GroupsCheck(c: nat, ghost busy: set<nat>, ghost sol: seq<seq<int>>) returns (ok: bool)
      requires Valid() && c < 81 && Busy(cells[..], busy) && SettledExcept(cells[..], busy)
      modifies cells, has
      decreases Empty(cells[..]), 5
      ensures Valid() && Busy(cells[..], busy) && SettledExcept(cells[..], busy)
      ensures Cascaded(old(cells[..]), old(has[..]), cells[..], has[..], sol)
      ensures ok
      ensures NakedSingles(cells[..]) <= old(NakedSingles(cells[..])) - Reached(c, 3)
    {
      ghost var s0, h0 := cells[..], has[..];
      for k := 0 to 3
        invariant Valid() && Busy(cells[..], busy) && SettledExcept(cells[..], busy)
        invariant Cascaded(s0, h0, cells[..], has[..], sol)
        invariant NakedSingles(cells[..]) <= NakedSingles(s0) - Reached(c, k)
      {
        ghost var s1, h1 := cells[..], has[..];
        ok := LineCheck(groups[c][k], busy, sol);
        if !ok {
          return;
        }
        CascadedTrans(s0, h0, s1, h1, cells[..], has[..], sol);
        ReachedStep(c, k);
      }
      ok := true;
    }

    /** `Line.check_possibilities`: give every member of line `g` that is down
        to one candidate that candidate. */
    method LineCheck(g: nat, ghost busy: set<nat>, ghost sol: seq<seq<int>>) returns (ok: bool)
      requires Valid() && g < 27 && Busy(cells[..], busy) && SettledExcept(cells[..], busy)
      modifies cells, has
      decreases Empty(cells[..]), 4
      ensures Valid() && Busy(cells[..], busy) && SettledExcept(cells[..], busy)
      ensures Cascaded(old(cells[..]), old(has[..]), cells[..], has[..], sol)
      ensures ok
      ensures NakedSingles(cells[..]) <= old(NakedSingles(cells[..])) - LineSet(g)
    {
      ghost var s0, h0 := cells[..], has[..];
      for j := 0 to 9
        invariant Valid() && Busy(cells[..], busy) && SettledExcept(cells[..], busy)
        invariant Cascaded(s0, h0, cells[..], has[..], sol)
        invariant NakedSingles(cells[..]) <= NakedSingles(s0) - LinePrefix(g, j)
      {
        ghost var s1, h1 := cells[..], has[..];
        ok := CellCheck(lines[g][j], busy, sol);
        if !ok {
          return;
        }
        CascadedTrans(s0, h0, s1, h1, cells[..], has[..], sol);
        LinePrefixStep(g, j);
      }
      LinePrefixAll(g);
      ok := true;
    }

    /** `Cell.check_possibilities`: a cell down to one candidate is assigned it. */
    method CellCheck(e: nat, ghost busy: set<nat>, ghost sol: seq<seq<int>>) returns (ok: bool)
      requires Valid() && e < 81 && Busy(cells[..], busy) && SettledExcept(cells[..], busy)
      modifies cells, has
      decreases Empty(cells[..]), 3
      ensures Valid() && Busy(cells[..], busy) && SettledExcept(cells[..], busy)
      ensures Cascaded(old(cells[..]), old(has[..]), cells[..], has[..], sol)
      ensures ok
      ensures NakedSingles(cells[..]) <= old(NakedSingles(cells[..])) - {e}
      ensures old(cells[e].val) == 0 && old(cells[e].count) == 1 ==>
        forall d | 0 <= d < 9 && old(cells[e].canBe[d]) :: cells[e].val == d + 1
      ensures !(old(cells[e].val) == 0 && old(cells[e].count) == 1) ==> cells[..] == old(cells[..]) && has[..] == old(has[..])
    {
      ghost var s0, h0 := cells[..], has[..];
      if cells[e].count == 1 {
        TruesZero(cells[e].canBe);
        ghost var d0 :| 0 <= d0 < 9 && cells[e].canBe[d0];
        TruesOne(cells[e].canBe, d0);
        for j := 0 to 9
          invariant Valid() && Busy(cells[..], busy) && SettledExcept(cells[..], busy)
          invariant j <= d0 ==> cells[..] == s0 && has[..] == h0
          invariant j > d0 ==> Checked(s0, h0, cells[..], has[..], e, d0, sol)
        {
          ok := CellCheckSlot(e, j, d0, s0, h0, busy, sol);
          if !ok {
            return;
          }
        }
      }
      ok := true;
    }

    /** One pass of the loop in `Cell.check_possibilities`: if slot `j` of cell
        `e` is still true, assign `j + 1`. Slot `d` is the one true slot the
        cell had on entry, with the board `s0`, `h0`. */
    method CellCheckSlot(e: nat, j: nat, ghost d: nat, ghost s0: seq<Cell>, ghost h0: seq<seq<bool>>, ghost busy: set<nat>,
                         ghost sol: seq<seq<int>>)
      returns (ok: bool)
      requires Valid() && e < 81 && j < 9 && d < 9 && Busy(cells[..], busy) && SettledExcept(cells[..], busy)
      requires Shaped(s0, h0) && s0[e].canBe[d] && forall d' | 0 <= d' < 9 && d' != d :: !s0[e].canBe[d']
      requires j <= d ==> cells[..] == s0 && has[..] == h0
      requires j > d ==> Checked(s0, h0, cells[..], has[..], e, d, sol)
      modifies cells, has
      decreases Empty(s0), 2
      ensures Valid() && Busy(cells[..], busy) && SettledExcept(cells[..], busy)
      ensures ok
      ensures j + 1 <= d ==> cells[..] == s0 && has[..] == h0
      ensures j + 1 > d ==> Checked(s0, h0, cells[..], has[..], e, d, sol)
    {
      if cells[e].canBe[j] {
        ok := Assign(e, j + 1, busy, sol);
        if j == d && s0[e].val == 0 {
          CheckedAssigned(s0, h0, cells[..], has[..], e, d, sol);
        }
      } else {
        ok := true;
      }
    }
  
    /** The inner loop of `Line.update` for digit `i`: count the members of
        line `g` that can take `i`, stopping at two, and keep the last one
        counted. */
    method CountHolders(g: nat, i: int) returns (count: nat, holder: nat)
      requires Framed() && g < 27 && 1 <= i <= 9
      ensures count <= 2
      ensures count == 0 <==> forall j | 0 <= j < 9 :: !cells[Member(g, j)].canBe[i - 1]
      ensures count == 1 ==>
        && holder < 81 && cells[holder].canBe[i - 1] && (exists j | 0 <= j < 9 :: holder == Member(g, j))
        && forall j | 0 <= j < 9 && Member(g, j) != holder :: !cells[Member(g, j)].canBe[i - 1]
      ensures count == 2 <==> TwoHolders(cells[..], g, i - 1)
    {
      count, holder := 0, 0;
      ghost var first := 0;
      var j := 0;
      while count < 2 && j < 9
        invariant j <= 9 && count <= 2 && count <= j
        invariant count == 0 ==> forall j' | 0 <= j' < j :: !cells[Member(g, j')].canBe[i - 1]
        invariant count == 1 ==>
          && first < j && holder == Member(g, first) && cells[holder].canBe[i - 1]
          && forall j' | 0 <= j' < j && j' != first :: !cells[Member(g, j')].canBe[i - 1]
        invariant count == 2 ==> TwoHolders(cells[..], g, i - 1)
        decreases 9 - j
      {
        var e := lines[g][j];
        if cells[e].canBe[i - 1] {
          if count == 1 {
            assert cells[..][Member(g, first)].canBe[i - 1] && cells[..][Member(g, j)].canBe[i - 1];
          } else {
            first := j;
          }
          count := count + 1;
          holder := e;
        }
        j := j + 1;
      }
    }

    /** `Line.update`: for each digit line `g` lacks, count the members that
        can take it; none is a contradiction, exactly one gets the digit. A
        digit that no member could take on entry gives false; with true,
        every hidden single of the line on entry has been placed. */
    method LineUpdate(g: nat, ghost sol: seq<seq<int>>) returns (ok: bool)
      requires Valid() && g < 27 && Settled(cells[..])
      modifies cells, has
      ensures Valid() && Settled(cells[..])
      ensures Cascaded(old(cells[..]), old(has[..]), cells[..], has[..], sol)
      ensures !ok ==> exists d | 0 <= d < 9 :: Blocked(cells[..], has[..], g, d)
      ensures forall d | 0 <= d < 9 :: old(Blocked(cells[..], has[..], g, d)) ==> !ok
      ensures ok ==> LineDone(old(cells[..]), old(has[..]), cells[..], g)
      ensures old(Completes(sol, cells[..])) ==> ok
      ensures old(NoHiddenSingle(cells[..], has[..], g)) ==> ok && cells[..] == old(cells[..]) && has[..] == old(has[..])
    {
      ghost var s0, h0 := cells[..], has[..];
      ok := true;
      for i := 1 to 10
        invariant Valid() && Settled(cells[..])
        invariant Updated(s0, h0, cells[..], has[..], g, i - 1, sol) && ok
      {
        ok := LineUpdateDigit(g, i, s0, h0, sol);
        if !ok {
          break;
        }
      }
      if ok {
        assert forall d | 0 <= d < 9 :: DigitDone(s0, h0, cells[..], g, d) && !Blocked(s0, h0, g, d);
      }
    }

    /** One pass of the loop in `Line.update`, for digit `i`, on the way from
        the board `s0`, `h0`: false exactly when `i` is blocked in the line,
        and a hidden single for `i` is placed. */
    method LineUpdateDigit(g: nat, i: int, ghost s0: seq<Cell>, ghost h0: seq<seq<bool>>, ghost sol: seq<seq<int>>)
      returns (ok: bool)
      requires Valid() && g < 27 && 1 <= i <= 9 && Settled(cells[..])
      requires Sound(s0, h0) && Updated(s0, h0, cells[..], has[..], g, i - 1, sol)
      modifies cells, has
      ensures Valid() && Settled(cells[..])
      ensures ok <==> !old(Blocked(cells[..], has[..], g, i - 1))
      ensures forall j | 0 <= j < 9 :: old(HiddenAt(cells[..], has[..], g, i - 1, j)) ==> cells[Member(g, j)].val == i
      ensures ok ==> Updated(s0, h0, cells[..], has[..], g, i, sol)
      ensures !ok ==> Blocked(cells[..], has[..], g, i - 1) && Cascaded(s0, h0, cells[..], has[..], sol)
      ensures !ok ==> !Completes(sol, s0) && !NoHiddenSingle(s0, h0, g)
    {
      ghost var s1, h1 := cells[..], has[..];
      if has[g][i - 1] {
        DigitStep(s0, h0, s1, h1, s1, h1, g, i - 1, sol);
        return true;
      }
      var count, holder := CountHolders(g, i);
      if count == 0 {
        assert Blocked(cells[..], has[..], g, i - 1);
        if Completes(sol, s0) {
          Unsolvable(cells[..], has[..], g, i - 1, sol);
        }
        return false;
      }
      if count == 2 {
        TwoHoldersOpen(s1, h1, g, i - 1);
        DigitStep(s0, h0, s1, h1, s1, h1, g, i - 1, sol);
        return true;
      }
      if Completes(sol, s1) {
        HiddenSingle(s1, h1, sol, g, i - 1, holder);
      }
      ok := Assign(holder, i, {}, sol);
      GrowsEmpty(s1, h1, cells[..], has[..]);
      DigitStep(s0, h0, s1, h1, cells[..], has[..], g, i - 1, sol);
    }

    /** `Board.update`: `Line.update` on every row, column and square in
        turn, stopping at the first contradiction. A digit that some line
        lacked and no member of it could take on entry gives false; with
        true, every hidden single on entry has been placed. */
    method Update(ghost sol: seq<seq<int>>) returns (ok: bool)
      requires Valid() && Settled(cells[..])
      modifies cells, has
      ensures Valid() && Settled(cells[..])
      ensures Cascaded(old(cells[..]), old(has[..]), cells[..], has[..], sol)
      ensures !ok ==> exists g, d | 0 <= g < 27 && 0 <= d < 9 :: Blocked(cells[..], has[..], g, d)
      ensures forall g, d | 0 <= g < 27 && 0 <= d < 9 :: old(Blocked(cells[..], has[..], g, d)) ==> !ok
      ensures ok ==> forall g | 0 <= g < 27 :: LineDone(old(cells[..]), old(has[..]), cells[..], g)
      ensures old(Completes(sol, cells[..])) ==> ok
      ensures old(NoHiddenSingles(cells[..], has[..])) ==> ok && cells[..] == old(cells[..]) && has[..] == old(has[..])
    {
      ghost var s0, h0 := cells[..], has[..];
      for g := 0 to 27
        invariant Valid() && Settled(cells[..])
        invariant LinesUpdated(s0, h0, cells[..], has[..], g, sol)
      {
        ghost var s1, h1 := cells[..], has[..];
        ok := LineUpdate(g, sol);
        if !ok {
          return;
        }
        LineStep(s0, h0, s1, h1, cells[..], has[..], g, sol);
      }
      LinesDone(s0, h0, cells[..], has[..], sol);
      ok := true;
    }

    /** `Board.solved`: the number of filled cells. */
    method Solved() returns (n: nat)
      requires cells.Length == 81
      ensures n == 81 - Empty(cells[..])
      ensures n == 81 <==> forall c | 0 <= c < 81 :: cells[c].val != 0
    {
      n := 0;
      for y := 0 to 9
        invariant n + Empty(cells[..y * 9]) == y * 9
      {
        for x := 0 to 9
          invariant n + Empty(cells[..y * 9 + x]) == y * 9 + x
        {
          assert cells[..y * 9 + x + 1][..y * 9 + x] == cells[..y * 9 + x];
          if cells[y * 9 + x].val != 0 {
            n := n + 1;
          }
        }
      }
      assert cells[..81] == cells[..];
      EmptyBound(cells[..]);
    }

    /** `Board.get_grid`: the values as rows, `grid[y][x]` for cell (x, y). */
    method GetGrid() returns (grid: seq<seq<int>>)
      requires Framed()
      ensures IsGrid(grid) && forall c | 0 <= c < 81 :: At(grid, c) == cells[c].val
    {
      grid := [];
      for y := 0 to 9
        invariant |grid| == y
        invariant forall y' | 0 <= y' < y :: |grid[y']| == 9
        invariant forall y', x | 0 <= y' < y && 0 <= x < 9 :: grid[y'][x] == cells[y' * 9 + x].val
      {
        var row := [];
        for x := 0 to 9
          invariant |row| == x && forall x' | 0 <= x' < x :: row[x'] == cells[y * 9 + x'].val
        {
          row := row + [cells[y * 9 + x].val];
        }
        grid := grid + [row];
      }
      assert forall c | 0 <= c < 81 :: 0 <= cells[..][c].val <= 9;
      forall c | 0 <= c < 81
        ensures At(grid, c) == cells[c].val
      {
        DivMod9(c, c / 9, c % 9);
      }
    }

    /** `Board.set_board`, and the seeding loop of `Board.__init__`: every
        cell, x outer and y inner, is given its grid value by `assign`, whose
        result is ignored. */
    method SetBoard(grid: seq<seq<int>>, ghost sol: seq<seq<int>>)
      requires Valid() && Settled(cells[..]) && IsGrid(grid)
      modifies cells, has
      ensures Valid() && Settled(cells[..])
      ensures Grows(old(cells[..]), old(has[..]), cells[..], has[..])
      ensures FilledBefore(grid, cells[..], 81)
      ensures old(Completes(sol, cells[..])) && Agrees(sol, grid) ==> Completes(sol, cells[..]) && Seeded(grid, cells[..])
    {
      ghost var s0, h0 := cells[..], has[..];
      for x := 0 to 9
        invariant Valid() && Settled(cells[..]) && SeedsFilled(grid, s0, h0, cells[..], has[..], x * 9, sol)
      {
        for y := 0 to 9
          invariant Valid() && Settled(cells[..]) && SeedsFilled(grid, s0, h0, cells[..], has[..], x * 9 + y, sol)
        {
          SeedCell(x, y, grid, s0, h0, sol);
        }
      }
      if Completes(sol, s0) && Agrees(sol, grid) {
        FilledAll(grid, cells[..]);
        FilledSeeded(grid, cells[..], sol);
      }
    }

    /** One pass of the seeding loop: `assign(grid[y][x])` on cell (x, y). */
    method SeedCell(x: nat, y: nat, grid: seq<seq<int>>, ghost s0: seq<Cell>, ghost h0: seq<seq<bool>>,
                    ghost sol: seq<seq<int>>)
      requires Valid() && Settled(cells[..]) && IsGrid(grid) && x < 9 && y < 9
      requires Shaped(s0, h0) && SeedsFilled(grid, s0, h0, cells[..], has[..], x * 9 + y, sol)
      modifies cells, has
      ensures Valid() && Settled(cells[..]) && SeedsFilled(grid, s0, h0, cells[..], has[..], x * 9 + y + 1, sol)
      ensures old(cells[y * 9 + x].val) == 0 && grid[y][x] != 0 ==> cells[y * 9 + x].val == grid[y][x]
    {
      ghost var s1, h1 := cells[..], has[..];
      var c, i := y * 9 + x, grid[y][x];
      var ok := Assign(c, i, {}, sol);
      SeedFilledStep(grid, s0, h0, s1, h1, cells[..], has[..], x, y, c, i, sol);
    }

    /** `set_board` as the solver evidently intends it: a seed that an empty
        cell can no longer take, or that differs from a filled cell, rejects
        the grid instead of being placed regardless or ignored. */
    method SetBoardChecked(grid: seq<seq<int>>, ghost sol: seq<seq<int>>) returns (ok: bool)
      requires Valid() && Settled(cells[..]) && IsGrid(grid)
      modifies cells, has
      ensures Valid() && Settled(cells[..])
      ensures Grows(old(cells[..]), old(has[..]), cells[..], has[..])
      ensures old(Consistent(cells[..])) ==> Consistent(cells[..])
      ensures ok ==> Seeded(grid, cells[..])
      ensures old(Completes(sol, cells[..])) && Agrees(sol, grid) ==> ok && Completes(sol, cells[..])
    {
      ghost var s0, h0 := cells[..], has[..];
      for x := 0 to 9
        invariant Valid() && Settled(cells[..]) && SeedsPlaced(grid, s0, h0, cells[..], has[..], x * 9, sol)
      {
        for y := 0 to 9
          invariant Valid() && Settled(cells[..]) && SeedsPlaced(grid, s0, h0, cells[..], has[..], x * 9 + y, sol)
        {
          ok := SeedCellChecked(x, y, grid, s0, h0, sol);
          if !ok {
            return;
          }
        }
      }
      SeededAll(grid, cells[..]);
      ok := true;
    }

    /** One pass of the checked seeding loop on cell (x, y). */
    method SeedCellChecked(x: nat, y: nat, grid: seq<seq<int>>, ghost s0: seq<Cell>, ghost h0: seq<seq<bool>>,
                           ghost sol: seq<seq<int>>)
      returns (ok: bool)
      requires Valid() && Settled(cells[..]) && IsGrid(grid) && x < 9 && y < 9
      requires Shaped(s0, h0) && SeedsPlaced(grid, s0, h0, cells[..], has[..], x * 9 + y, sol)
      modifies cells, has
      ensures Valid() && Settled(cells[..])
      ensures ok ==> SeedsPlaced(grid, s0, h0, cells[..], has[..], x * 9 + y + 1, sol)
      ensures !ok ==> cells[..] == old(cells[..]) && has[..] == old(has[..]) && !(Completes(sol, s0) && Agrees(sol, grid))
    {
      var c, i := y * 9 + x, grid[y][x];
      if i != 0 && !(cells[c].val == i || (cells[c].val == 0 && cells[c].canBe[i - 1])) {
        SeedRefused(grid, s0, h0, cells[..], has[..], x, y, c, i, sol);
        return false;
      }
      ghost var s1, h1 := cells[..], has[..];
      ok := Assign(c, i, {}, sol);
      SeedPlacedStep(grid, s0, h0, s1, h1, cells[..], has[..], x, y, c, i, sol);
    }

    /** `Cell.assign(i)` for a guess, as the solver evidently intends it: a
        digit the cell can no longer take, or that differs from its value, is
        refused instead of placed regardless. */
    method PlaceChecked(c: nat, i: int, ghost sol: seq<seq<int>>) returns (ok: bool)
      requires Valid() && Settled(cells[..]) && c < 81 && 1 <= i <= 9
      modifies cells, has
      ensures Valid() && Settled(cells[..])
      ensures Grows(old(cells[..]), old(has[..]), cells[..], has[..])
      ensures old(Consistent(cells[..])) ==> Consistent(cells[..])
      ensures ok <==> old(cells[c].val == i || (cells[c].val == 0 && cells[c].canBe[i - 1]))
      ensures ok ==> cells[c].val == i
      ensures !ok ==> cells[..] == old(cells[..]) && has[..] == old(has[..])
      ensures old(Completes(sol, cells[..])) && At(sol, c) == i ==> ok && Completes(sol, cells[..])
    {
      if !(cells[c].val == i || (cells[c].val == 0 && cells[c].canBe[i - 1])) {
        if Completes(sol, cells[..]) && At(sol, c) == i {
          if cells[c].val == 0 {
            SolutionCandidates(cells[..], has[..], sol, c);
          } else {
            ExtendsCell(sol, cells[..], c);
          }
        }
        return false;
      }
      ok := Assign(c, i, {}, sol);
    }

    /** The board `Board.__init__` builds before seeding: fresh cells, no
        digit recorded in any line, and the row, column and square tables. */
    constructor Blank()
      ensures Valid() && Settled(cells[..]) && Consistent(cells[..])
      ensures cells[..] == BlankCells && has[..] == BlankFlags
      ensures fresh(cells) && fresh(has)
    {
      var ls, gs, cs, hs := NewArrays();
      lines, groups, cells, has := ls, gs, cs, hs;
      new;
      BlankSound();
    }

    /** `Board.__init__`: a blank board seeded from `grid` by the unchecked
        seeding loop. Every seed's cell ends up filled. When a solution
        agrees with the seeds, every seed is in its cell, the board is
        consistent, and the solution is a solution of the board. */
    constructor (grid: seq<seq<int>>, ghost sol: seq<seq<int>>)
      requires IsGrid(grid)
      ensures Valid() && Settled(cells[..]) && fresh(cells) && fresh(has)
      ensures forall c | 0 <= c < 81 :: At(grid, c) != 0 ==> cells[c].val != 0
      ensures IsSolution(sol) && Agrees(sol, grid) ==>
        Completes(sol, cells[..]) && Seeded(grid, cells[..]) && Consistent(cells[..])
    {
      var ls, gs, cs, hs := NewArrays();
      lines, groups, cells, has := ls, gs, cs, hs;
      new;
      BlankSound();
      SetBoard(grid, sol);
      FilledAll(grid, cells[..]);
      if IsSolution(sol) && Agrees(sol, grid) {
        CompletesConsistent(cells[..], sol);
      }
    }

    /** The first half of `Board.__init__`: the line and group tables, 81
        fresh cells and 27 lines that have recorded no digit. */
    static method NewArrays() returns (ls: seq<seq<nat>>, gs: seq<seq<nat>>, cs: array<Cell>, hs: array<seq<bool>>)
      ensures Wired(ls, gs) && fresh(cs) && fresh(hs)
      ensures cs[..] == BlankCells && hs[..] == BlankFlags
    {
      ls := BuildLines();
      gs := BuildGroups();
      cs := new Cell[81](_ => Fresh);
      hs := new seq<bool>[27](_ => NoCandidates);
      assert cs[..] == BlankCells;
      assert hs[..] == BlankFlags;
    }

    /** `Board.find_best_cell_to_guess` as the solver evidently intends it:
        the scan, x outer and y inner, starts above every possible count, so
        it finds a cell whenever one has a candidate, and the candidates
        returned are those of the cell found. */
    method FindBestCellToGuess() returns (best: Option<nat>, pos: seq<int>)
      requires cells.Length == 81 && CellsWf(cells[..])
      ensures best == if Scan(cells[..], 0, 10, 81) == 81 then None else Some(Scan(cells[..], 0, 10, 81))
      ensures best.None? <==> forall c | 0 <= c < 81 :: cells[c].count == 0
      ensures best.Some? ==> best.value < 81 && cells[best.value].count != 0
      ensures best.Some? ==> pos == Candidates(cells[best.value].canBe) && |pos| == cells[best.value].count
      ensures best.Some? ==>
        || cells[best.value].count == 2
        || forall c | 0 <= c < 81 && cells[c].count != 0 :: cells[best.value].count <= cells[c].count
    {
      var cell := ScanBest(10);
      BestGuess(cells[..]);
      if cell == 81 {
        return None, [];
      }
      best := Some(cell);
      pos := GetPos(cells[cell]);
      CandidatesCount(cells[cell].canBe);
    }

    /** The loops of `find_best_cell_to_guess`, x outer and y inner, from
        the bound `top`: the first cell with two candidates below the bound
        ends the scan, otherwise the first cell with the fewest candidates
        is kept; 81 when no count is below `top`. */
    method ScanBest(top: int) returns (cell: nat)
      requires cells.Length == 81
      ensures cell == Scan(cells[..], 0, top, 81)
    {
      ghost var s := cells[..];
      var min := top;
      cell := 81;
      for x := 0 to 9
        invariant Scan(s, 0, top, 81) == Scan(s, x * 9, min, cell)
      {
        for y := 0 to 9
          invariant Scan(s, 0, top, 81) == Scan(s, x * 9 + y, min, cell)
        {
          var c := y * 9 + x;
          ScanStep(s, x, y, x * 9 + y, c, min, cell);
          if cells[c].count != 0 && cells[c].count < min {
            if cells[c].count == 2 {
              return c;
            }
            min, cell := cells[c].count, c;
          }
        }
      }
    }

    /** `Board.find_best_cell_to_guess` as written: the scan starts from the
        count 9 of a fresh cell, so a cell with nine candidates is never
        chosen and with none chosen the coordinates are (9, 9); a cell with
        two candidates is returned at once with its candidates, but any other
        choice comes back with the candidates of the last cell scanned,
        (8, 8). */
    method FindBestCellToGuessAsWritten() returns (x: int, y: int, pos: seq<int>)
      requires cells.Length == 81 && CellsWf(cells[..])
      ensures var r := Scan(cells[..], 0, 9, 81);
        && (r == 81 ==> x == 9 && y == 9)
        && (r < 81 ==> 0 <= x < 9 && 0 <= y < 9 && r == y * 9 + x)
        && pos == Candidates(cells[if r < 81 && cells[r].count == 2 then r else 80].canBe)
    {
      var min, cellX, cellY := 9, 9, 9;
      ghost var cell: nat := 81;
      ghost var s := cells[..];
      for i := 0 to 9
        invariant cell <= 81 && Scan(s, 0, 9, 81) == Scan(s, i * 9, min, cell)
        invariant cell == 81 ==> cellX == 9 && cellY == 9
        invariant cell < 81 ==> 0 <= cellX < 9 && 0 <= cellY < 9 && cell == cellY * 9 + cellX && s[cell].count != 2
      {
        for j := 0 to 9
          invariant cell <= 81 && Scan(s, 0, 9, 81) == Scan(s, i * 9 + j, min, cell)
          invariant cell == 81 ==> cellX == 9 && cellY == 9
          invariant cell < 81 ==> 0 <= cellX < 9 && 0 <= cellY < 9 && cell == cellY * 9 + cellX && s[cell].count != 2
        {
          var c := j * 9 + i;
          ScanStep(s, i, j, i * 9 + j, c, min, cell);
          if cells[c].count != 0 && cells[c].count < min {
            if cells[c].count == 2 {
              x, y := i, j;
              pos := GetPos(cells[c]);
              return;
            }
            min, cellX, cellY := cells[c].count, i, j;
            cell := c;
          }
        }
      }
      x, y := cellX, cellY;
      pos := GetPos(cells[80]);
    }

    /** `Board.solve`: fill what the line rule forces, again while it fills
        something, and otherwise guess each candidate of the best cell on a
        copy of the board. A grid is returned only if it extends the board,
        and then the board is set to it; from a consistent board it is a
        solution; and a board that has a solution is never given up. */
    method Solve(ghost sol: seq<seq<int>>) returns (r: Option<seq<seq<int>>>)
      requires Valid() && Settled(cells[..])
      modifies cells, has
      decreases Empty(cells[..]), 4
      ensures Valid() && Settled(cells[..])
      ensures Grows(old(cells[..]), old(has[..]), cells[..], has[..])
      ensures old(Consistent(cells[..])) ==> Consistent(cells[..])
      ensures r.Some? ==> HoldsGrid(r.value, cells[..]) && Extends(r.value, old(cells[..]))
      ensures r.Some? && old(Consistent(cells[..])) ==> IsSolution(r.value)
      ensures old(Completes(sol, cells[..])) ==> r.Some?
    {
      ghost var s0, h0 := cells[..], has[..];
      var n := Solved();
      if n == 81 {
        var grid := Finished();
        return Some(grid);
      }
      var ok := Update(sol);
      if !ok {
        return None;
      }
      ghost var s1, h1 := cells[..], has[..];
      var m := Solved();
      if m != n {
        r := Solve(sol);
      } else {
        r := GuessBest(sol);
      }
      SolveTail(s0, h0, s1, h1, cells[..], has[..], r.Some?, if r.Some? then r.value else [], sol);
    }

    /** The first branch of `Board.solve`: a full board returns its values,
        which form a solution when the board is consistent. */
    method Finished() returns (grid: seq<seq<int>>)
      requires Framed() && forall c | 0 <= c < 81 :: cells[c].val != 0
      ensures HoldsGrid(grid, cells[..]) && Extends(grid, cells[..])
      ensures Consistent(cells[..]) ==> IsSolution(grid)
    {
      grid := GetGrid();
      ExtendsAll(grid, cells[..]);
      EmptyBound(cells[..]);
      if Consistent(cells[..]) {
        FullSolution(cells[..], grid);
      }
    }

    /** The branch of `Board.solve` where the line rule fills nothing: pick
        the best cell, cache the values and guess. */
    method GuessBest(ghost sol: seq<seq<int>>) returns (r: Option<seq<seq<int>>>)
      requires Valid() && Settled(cells[..]) && Empty(cells[..]) != 0
      modifies cells, has
      decreases Empty(cells[..]), 3
      ensures Valid() && Settled(cells[..])
      ensures Grows(old(cells[..]), old(has[..]), cells[..], has[..])
      ensures old(Consistent(cells[..])) ==> Consistent(cells[..])
      ensures r.Some? ==> IsSolution(r.value) && Extends(r.value, old(cells[..]))
      ensures r.Some? ==> HoldsGrid(r.value, cells[..])
      ensures old(Completes(sol, cells[..])) ==> r.Some?
    {
      var best, pos := FindBestCellToGuess();
      if best.None? {
        if Completes(sol, cells[..]) {
          NothingToGuess(cells[..], has[..], sol);
        }
        return None;
      }
      CountedEmpty(cells[..], best.value);
      var grid := GetGrid();
      r := Guess(best.value, pos, grid, sol);
    }

    /** The guessing step of `Board.solve` on cell `c`, whose candidates are
        `pos`, with `grid` the cached values of the board: the first guess
        that solves is copied back onto this board with `assign`. */
    method Guess(c: nat, pos: seq<int>, grid: seq<seq<int>>, ghost sol: seq<seq<int>>)
      returns (r: Option<seq<seq<int>>>)
      requires Valid() && Settled(cells[..]) && c < 81 && cells[c].val == 0
      requires pos == Candidates(cells[c].canBe)
      requires IsGrid(grid) && forall e | 0 <= e < 81 :: At(grid, e) == cells[e].val
      modifies cells, has
      decreases Empty(cells[..]), 2
      ensures Valid() && Settled(cells[..])
      ensures Grows(old(cells[..]), old(has[..]), cells[..], has[..])
      ensures old(Consistent(cells[..])) ==> Consistent(cells[..])
      ensures r.Some? ==> IsSolution(r.value) && Extends(r.value, old(cells[..]))
      ensures r.Some? ==> forall e | 0 <= e < 81 :: cells[e].val == At(r.value, e)
      ensures old(Completes(sol, cells[..])) ==> r.Some?
      ensures r.Some? ==> exists k | 0 <= k < |pos| ::
        At(r.value, c) == pos[k] && (old(Completes(sol, cells[..])) ==> At(sol, c) !in pos[..k])
    {
      if Completes(sol, cells[..]) {
        GuessCovers(cells[..], has[..], sol, c);
      }
      CandidatesMembers(cells[c].canBe);
      r := Search(c, pos, grid, cells[..], sol);
      if r.Some? {
        SetBoard(r.value, r.value);
        Adopted(r.value, cells[..]);
      }
    }

    /** The loop over the candidates `pos` of cell `c` in `Board.solve`, on
        the board `s0` whose values `grid` caches: each is tried on a new
        board, and the first that solves ends the loop. */
    static method Search(c: nat, pos: seq<int>, grid: seq<seq<int>>, ghost s0: seq<Cell>, ghost sol: seq<seq<int>>)
      returns (r: Option<seq<seq<int>>>)
      requires |s0| == 81 && c < 81 && s0[c].val == 0
      requires forall d | d in pos :: 1 <= d <= 9
      requires IsGrid(grid) && forall e | 0 <= e < 81 :: At(grid, e) == s0[e].val
      decreases Empty(s0), 1
      ensures r.Some? ==> IsSolution(r.value) && Extends(r.value, s0)
      ensures Completes(sol, s0) && At(sol, c) in pos ==> r.Some?
      // the grid returned comes from the first candidate that solves: no
      // candidate before it is the digit a solution puts in `c`
      ensures r.Some? ==> exists k | 0 <= k < |pos| ::
        At(r.value, c) == pos[k] && (Completes(sol, s0) ==> At(sol, c) !in pos[..k])
    {
      // the digit the solution `sol` puts in cell `c`, when it completes the board
      ghost var t := if Completes(sol, s0) then At(sol, c) else 0;
      r := None;
      for k := 0 to |pos|
        invariant r.None? && t !in pos[..k]
      {
        assert pos[k] in pos;
        r := TryGuess(c, pos[k], grid, s0, sol);
        if r.Some? {
          assert At(r.value, c) == pos[k];
          return;
        }
        assert pos[..k + 1] == pos[..k] + [pos[k]];
      }
      assert pos[..|pos|] == pos;
    }

    /** One pass of the guessing loop on the board `s0`, whose values `grid`
        caches: a new board seeded from `grid` and given `d` in cell `c`,
        then solved. */
    static method TryGuess(c: nat, d: int, grid: seq<seq<int>>, ghost s0: seq<Cell>, ghost sol: seq<seq<int>>)
      returns (r: Option<seq<seq<int>>>)
      requires |s0| == 81 && c < 81 && s0[c].val == 0 && 1 <= d <= 9
      requires IsGrid(grid) && forall e | 0 <= e < 81 :: At(grid, e) == s0[e].val
      decreases Empty(s0), 0
      ensures r.Some? ==> IsSolution(r.value) && Extends(r.value, s0)
      ensures Completes(sol, s0) && At(sol, c) == d ==> r.Some?
      ensures r.Some? ==> At(r.value, c) == d
    {
      var nb, ok := GuessBoard(c, d, grid, s0, sol);
      if !ok {
        return None;
      }
      r := nb.Solve(sol);
    }

    /** The new board of one guess: a copy of the board `s0`, seeded from its
        snapshot `grid`, given `d` in cell `c`. The guess is checked (see
        `PlaceChecked`), so the new board is consistent, has fewer empty
        cells than `s0`, and any solution of it is a solution of `s0`; it is
        refused only when no solution of `s0` puts `d` in `c`. */
    static method GuessBoard(c: nat, d: int, grid: seq<seq<int>>, ghost s0: seq<Cell>, ghost sol: seq<seq<int>>)
      returns (nb: Board, ok: bool)
      requires |s0| == 81 && c < 81 && s0[c].val == 0 && 1 <= d <= 9
      requires IsGrid(grid) && forall e | 0 <= e < 81 :: At(grid, e) == s0[e].val
      ensures fresh(nb) && fresh(nb.cells) && fresh(nb.has)
      ensures ok ==> nb.Valid() && Settled(nb.cells[..]) && Consistent(nb.cells[..])
      ensures ok ==> nb.cells[c].val == d && Empty(nb.cells[..]) < Empty(s0)
      ensures ok ==> forall g | IsSolution(g) && Extends(g, nb.cells[..]) :: Extends(g, s0)
      ensures Completes(sol, s0) && At(sol, c) == d ==> ok && Completes(sol, nb.cells[..])
    {
      nb, ok := CopyBoard(grid, s0, sol);
      if !ok {
        return;
      }
      ghost var seeded := nb.cells[..];
      ok := nb.PlaceChecked(c, d, sol);
      if !ok {
        return;
      }
      Guessed(s0, grid, seeded, nb.cells[..], c);
    }

    /** `Board(grid)` in the guessing loop, with the seeds checked: a new
        consistent board holding every value of `s0`, whose snapshot `grid`
        is; a solution of `s0` is one of the copy. */
    static method CopyBoard(grid: seq<seq<int>>, ghost s0: seq<Cell>, ghost sol: seq<seq<int>>)
      returns (nb: Board, ok: bool)
      requires |s0| == 81 && IsGrid(grid) && forall e | 0 <= e < 81 :: At(grid, e) == s0[e].val
      ensures fresh(nb) && fresh(nb.cells) && fresh(nb.has)
      ensures ok ==> nb.Valid() && Settled(nb.cells[..]) && Consistent(nb.cells[..]) && Seeded(grid, nb.cells[..])
      ensures Completes(sol, s0) ==> ok && Completes(sol, nb.cells[..])
    {
      nb := new Board.Blank();
      if Completes(sol, s0) {
        SnapshotAgrees(sol, s0, grid);
        BlankSound();
      }
      ok := nb.SetBoardChecked(grid, sol);
    }
  }

  /** One puzzle of the driver loop: `Board(new_board)`, then `solve()`. A
      returned grid is full. When a solution agrees with the puzzle's
      digits, a grid is returned, and it is a solution that keeps every
      digit of the puzzle. */
  method SolvePuzzle(grid: seq<seq<int>>, ghost sol: seq<seq<int>>) returns (r: Option<seq<seq<int>>>)
    requires IsGrid(grid)
    ensures r.Some? ==> IsGrid(r.value) && forall c | 0 <= c < 81 :: 1 <= At(r.value, c) <= 9
    ensures IsSolution(sol) && Agrees(sol, grid) ==> r.Some? && IsSolution(r.value) && Agrees(r.value, grid)
  {
    var b := new Board(grid, sol);
    ghost var s0 := b.cells[..];
    r := b.Solve(sol);
    if r.Some? && IsSolution(sol) && Agrees(sol, grid) {
      SeededAgrees(grid, s0, r.value);
    }
  }
}
