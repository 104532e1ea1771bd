/** The fixed wiring of a 9x9 board: 81 cells, indexed `y * 9 + x` as
    `Board.get_cell(x, y)` reads `grid[y][x]`, and 27 lines numbered in the
    order `Board.groups` lists them: rows 0..8, columns 9..17, squares 18..26. */
module Grid {

  function X(c: nat): nat { c % 9 }
  function Y(c: nat): nat { c / 9 }

  /** The square of a cell, `(y / 3) * 3 + x / 3` with integer division. */
  function Box(c: nat): nat { (Y(c) / 3) * 3 + X(c) / 3 }

  /** The line of kind `k` (0 row, 1 column, 2 square) holding cell `c`:
      the three groups a cell records, in the order `set_group` appends them. */
  function LineOf(c: nat, k: nat): (g: nat)
    requires c < 81 && k < 3
    ensures g < 27 && g / 9 == k
  {
    if k == 0 then Y(c) else if k == 1 then 9 + X(c) else 18 + Box(c)
  }

  /** The `j`-th member of line `g`: rows and columns by ascending coordinate,
      squares in the order the construction loop appends them (y outer, x inner). */
  function Member(g: nat, j: nat): (c: nat)
    requires g < 27 && j < 9
    ensures c < 81
  {
    if g < 9 then g * 9 + j
    else if g < 18 then j * 9 + (g - 9)
    else ((g - 18) / 3 * 3 + j / 3) * 9 + (g - 18) % 3 * 3 + j % 3
  }

  /** The position of cell `c` in its line of kind `k`. */
  function Slot(c: nat, k: nat): (j: nat)
    requires c < 81 && k < 3
    ensures j < 9
  {
    if k == 0 then X(c) else if k == 1 then Y(c) else Y(c) % 3 * 3 + X(c) % 3
  }

  /** Cell `c` sits in line `g`. */
  predicate InLine(c: nat, g: nat) {
    c < 81 && g < 27 && LineOf(c, g / 9) == g
  }

  /** Two cells share a row, a column or a square. */
  predicate Peers(c: nat, e: nat)
    requires c < 81 && e < 81
  {
    LineOf(c, 0) == LineOf(e, 0) || LineOf(c, 1) == LineOf(e, 1) || LineOf(c, 2) == LineOf(e, 2)
  }

  /** Division by 3 and by 9 recovers quotient and remainder. */
  lemma DivMod3(n: nat, q: nat, r: nat)
    requires n == 3 * q + r && r < 3
    ensures n / 3 == q && n % 3 == r
  {
  }

  lemma DivMod9(n: nat, q: nat, r: nat)
    requires n == 9 * q + r && r < 9
    ensures n / 9 == q && n % 9 == r
  {
  }

  lemma MemberSlot(c: nat, k: nat)
    requires c < 81 && k < 3
    ensures Member(LineOf(c, k), Slot(c, k)) == c
  {
    if k == 2 {
      var x, y := X(c), Y(c);
      DivMod9(c, y, x);
      var a, p := y / 3, y % 3;
      var b, q := x / 3, x % 3;
      DivMod3(y, a, p);
      DivMod3(x, b, q);
      DivMod3(Box(c), a, b);
      DivMod3(Slot(c, 2), p, q);
    }
  }

  lemma SlotMember(g: nat, j: nat)
    requires g < 27 && j < 9
    ensures LineOf(Member(g, j), g / 9) == g && Slot(Member(g, j), g / 9) == j
  {
    var c := Member(g, j);
    if g < 9 {
      DivMod9(c, g, j);
    } else if g < 18 {
      DivMod9(c, j, g - 9);
      DivMod9(g, 1, g - 9);
    } else {
      var s := g - 18;
      var a, b := s / 3, s % 3;
      var p, q := j / 3, j % 3;
      DivMod3(s, a, b);
      DivMod3(j, p, q);
      var y, x := 3 * a + p, 3 * b + q;
      DivMod9(c, y, x);
      DivMod3(y, a, p);
      DivMod3(x, b, q);
      DivMod9(g, 2, s);
    }
  }

  /** Every line has nine distinct members, and a cell is a member of line `g`
      exactly when `g` is one of its three groups. */
  lemma MembersDistinct(g: nat, j: nat, j': nat)
    requires g < 27 && j < 9 && j' < 9
    ensures Member(g, j) == Member(g, j') ==> j == j'
  {
    SlotMember(g, j);
    SlotMember(g, j');
  }

  lemma InLineIsMember(c: nat, g: nat)
    requires c < 81 && g < 27
    ensures InLine(c, g) <==> exists j :: 0 <= j < 9 && Member(g, j) == c
  {
    if InLine(c, g) {
      MemberSlot(c, g / 9);
    }
    if j :| 0 <= j < 9 && Member(g, j) == c {
      SlotMember(g, j);
    }
  }

  /** Each cell has exactly three groups, one row, one column and one square. */
  lemma ThreeGroups(c: nat)
    requires c < 81
    ensures forall g :: 0 <= g < 27 ==> (InLine(c, g) <==> g == LineOf(c, 0) || g == LineOf(c, 1) || g == LineOf(c, 2))
    ensures LineOf(c, 0) != LineOf(c, 1) && LineOf(c, 1) != LineOf(c, 2) && LineOf(c, 0) != LineOf(c, 2)
  {
    forall g | 0 <= g < 27
      ensures InLine(c, g) <==> g == LineOf(c, 0) || g == LineOf(c, 1) || g == LineOf(c, 2)
    {
      assert g / 9 < 3;
    }
  }

  /** Cell (x, y) lies in `rows[y]`, `cols[x]` and `squares[(y / 3) * 3 + x / 3]`. */
  lemma Coordinates(x: nat, y: nat)
    requires x < 9 && y < 9
    ensures LineOf(y * 9 + x, 0) == y
    ensures LineOf(y * 9 + x, 1) == 9 + x
    ensures LineOf(y * 9 + x, 2) == 18 + (y / 3) * 3 + x / 3
  {
    var c := y * 9 + x;
    assert c / 9 == y && c % 9 == x;
  }

  /** Both directions between a line's positions and its member cells. */
  lemma LineMembers(g: nat)
    requires g < 27
    ensures forall j | 0 <= j < 9 :: InLine(Member(g, j), g) && Slot(Member(g, j), g / 9) == j
    ensures forall c | 0 <= c < 81 && InLine(c, g) :: Member(g, Slot(c, g / 9)) == c
  {
    forall j | 0 <= j < 9
      ensures InLine(Member(g, j), g) && Slot(Member(g, j), g / 9) == j
    {
      SlotMember(g, j);
    }
    forall c | 0 <= c < 81 && InLine(c, g)
      ensures Member(g, Slot(c, g / 9)) == c
    {
      MemberSlot(c, g / 9);
    }
  }

  /** How many cells of square `s` the construction loop has appended before it
      reaches (x, y), scanning rows y outer and columns x inner. */
  function Appended(s: nat, y: nat, x: nat): nat {
    var r0, c0 := s / 3 * 3, s % 3 * 3;
    var rowsDone := if y <= r0 then 0 else if y >= r0 + 3 then 3 else y - r0;
    var inRow := if r0 <= y < r0 + 3 then (if x <= c0 then 0 else if x >= c0 + 3 then 3 else x - c0) else 0;
    rowsDone * 3 + inRow
  }

  /** Appending cell (x, y) to its square `b` puts it at position
      `Appended(b, y, x)`, which is its slot there, and moves only that count. */
  lemma AppendStep(y: nat, x: nat)
    requires y < 9 && x < 9
    ensures var b := y / 3 * 3 + x / 3;
      && b < 9
      && Appended(b, y, x) == Slot(y * 9 + x, 2)
      && Member(18 + b, Appended(b, y, x)) == y * 9 + x
      && Appended(b, y, x + 1) == Appended(b, y, x) + 1
      && forall s | 0 <= s < 9 && s != b :: Appended(s, y, x + 1) == Appended(s, y, x)
  {
    AppendHere(y, x, y / 3, y % 3, x / 3, x % 3);
    forall s | 0 <= s < 9 && s != y / 3 * 3 + x / 3
      ensures Appended(s, y, x + 1) == Appended(s, y, x)
    {
      OtherSquare(s, y, x);
    }
  }

  /** The count of the square cell (x, y) falls in, with `y = 3 * ry + ty` and
      `x = 3 * rx + tx`. */
  lemma AppendHere(y: nat, x: nat, ry: nat, ty: nat, rx: nat, tx: nat)
    requires y == 3 * ry + ty && x == 3 * rx + tx && ty < 3 && tx < 3 && ry < 3 && rx < 3
    ensures y / 3 * 3 + x / 3 == ry * 3 + rx
    ensures Appended(ry * 3 + rx, y, x) == ty * 3 + tx == Slot(y * 9 + x, 2)
    ensures Appended(ry * 3 + rx, y, x + 1) == ty * 3 + tx + 1
    ensures Member(18 + ry * 3 + rx, ty * 3 + tx) == y * 9 + x
  {
    DivMod3(y, ry, ty);
    DivMod3(x, rx, tx);
    var b := ry * 3 + rx;
    DivMod3(b, ry, rx);
    var c := y * 9 + x;
    DivMod9(c, y, x);
    assert Box(c) == b && Slot(c, 2) == ty * 3 + tx;
    MemberSlot(c, 2);
  }

  lemma OtherSquare(s: nat, y: nat, x: nat)
    requires s < 9 && y < 9 && x < 9 && s != y / 3 * 3 + x / 3
    ensures Appended(s, y, x + 1) == Appended(s, y, x)
  {
    var rs, cs := s / 3, s % 3;
    DivMod3(s, rs, cs);
    if rs == y / 3 {
      assert cs != x / 3;
      assert x < 3 * cs || x >= 3 * cs + 3;
    } else {
      assert y < 3 * rs || y >= 3 * rs + 3;
    }
  }

  /** The end of one row of the scan is the start of the next. */
  lemma AppendRow(y: nat)
    requires y < 9
    ensures forall s | 0 <= s < 9 :: Appended(s, y, 9) == Appended(s, y + 1, 0)
  {
  }

  /** The squares after scanning up to cell (x, y): each holds its members in
      order, as many as the scan has reached. */
  ghost predicate SquaresSoFar(squares: seq<seq<nat>>, y: nat, x: nat) {
    && |squares| == 9
    && (forall s | 0 <= s < 9 :: |squares[s]| == Appended(s, y, x))
    && (forall s, j | 0 <= s < 9 && 0 <= j < |squares[s]| :: squares[s][j] == Member(18 + s, j))
  }

  /** Appending cell (x, y) to its square advances the scan by one cell. */
  lemma SquaresStep(squares: seq<seq<nat>>, y: nat, x: nat)
    requires y < 9 && x < 9 && SquaresSoFar(squares, y, x)
    ensures var b := y / 3 * 3 + x / 3;
      b < 9 && SquaresSoFar(squares[b := squares[b] + [y * 9 + x]], y, x + 1)
  {
    AppendStep(y, x);
    var b := y / 3 * 3 + x / 3;
    var c := y * 9 + x;
    var sq := squares[b := squares[b] + [c]];
    forall s | 0 <= s < 9
      ensures |sq[s]| == Appended(s, y, x + 1)
    {
      if s != b {
        assert sq[s] == squares[s];
      }
    }
    forall s, j | 0 <= s < 9 && 0 <= j < |sq[s]|
      ensures sq[s][j] == Member(18 + s, j)
    {
      if s != b {
        assert sq[s] == squares[s];
      } else if j < |squares[b]| {
        assert sq[s][j] == squares[b][j];
      }
    }
  }

  /** `squares` of `Board.__init__`: every cell, rows outer and columns inner,
      appended to the square `(y / 3) * 3 + x / 3`. */
  method BuildSquares() returns (squares: seq<seq<nat>>)
    ensures |squares| == 9
    ensures forall s | 0 <= s < 9 :: |squares[s]| == 9 && forall j | 0 <= j < 9 :: squares[s][j] == Member(18 + s, j)
  {
    squares := seq(9, _ => []);
    for y := 0 to 9
      invariant SquaresSoFar(squares, y, 0)
    {
      for x := 0 to 9
        invariant SquaresSoFar(squares, y, x)
      {
        SquaresStep(squares, y, x);
        var b := y / 3 * 3 + x / 3;
        squares := squares[b := squares[b] + [y * 9 + x]];
      }
      AppendRow(y);
    }
  }

  /** The line list of `Board.__init__`: rows and columns by comprehension,
      then the squares; `lines[g]` lists line `g`'s members in order. */
  method BuildLines() returns (lines: seq<seq<nat>>)
    ensures |lines| == 27
    ensures forall g | 0 <= g < 27 :: |lines[g]| == 9 && forall j | 0 <= j < 9 :: lines[g][j] == Member(g, j)
  {
    var rows: seq<seq<nat>>, cols: seq<seq<nat>> := [], [];
    for i := 0 to 9
      invariant |rows| == i && |cols| == i
      invariant forall g | 0 <= g < i :: |rows[g]| == 9 && |cols[g]| == 9
      invariant forall g, j | 0 <= g < i && 0 <= j < 9 :: rows[g][j] == Member(g, j) && cols[g][j] == Member(9 + g, j)
    {
      rows := rows + [seq(9, j => i * 9 + j)];
      cols := cols + [seq(9, j => j * 9 + i)];
    }
    var squares := BuildSquares();
    lines := rows + cols + squares;
  }

  /** The three groups `set_group` gives each cell (x, y), visited x outer and
      y inner: `rows[y]`, `cols[x]`, `squares[(y / 3) * 3 + x / 3]`. */
  method BuildGroups() returns (groups: seq<seq<nat>>)
    ensures |groups| == 81
    ensures forall c | 0 <= c < 81 :: groups[c] == [LineOf(c, 0), LineOf(c, 1), LineOf(c, 2)]
  {
    groups := seq(81, _ => []);
    for x := 0 to 9
      invariant |groups| == 81
      invariant forall c | 0 <= c < 81 && X(c) < x :: groups[c] == [LineOf(c, 0), LineOf(c, 1), LineOf(c, 2)]
    {
      for y := 0 to 9
        invariant |groups| == 81
        invariant forall c | 0 <= c < 81 && (X(c) < x || (X(c) == x && Y(c) < y)) ::
          groups[c] == [LineOf(c, 0), LineOf(c, 1), LineOf(c, 2)]
      {
        Coordinates(x, y);
        groups := groups[y * 9 + x := [y, 9 + x, 18 + y / 3 * 3 + x / 3]];
      }
    }
  }

  /** The position of cell `c` in the scans of `Board.__init__`, `set_board`
      and `find_best_cell_to_guess`, x outer and y inner: `x * 9 + y` for
      cell `y * 9 + x`. Each step down a column moves one position on. */
  function ScanPos(c: nat): nat {
    if c < 9 then c * 9 else ScanPos(c - 9) + 1
  }

  /** The cell at position `p` of that scan: `y * 9 + x` for position
      `x * 9 + y`. */
  function ScanCell(p: nat): nat {
    if p < 9 then p * 9 else ScanCell(p - 9) + 1
  }

  lemma {:induction false} CellOfPos(x: nat, y: nat)
    requires x < 9 && y < 9
    ensures ScanCell(x * 9 + y) == y * 9 + x
  {
    if x > 0 {
      CellOfPos(x - 1, y);
      assert x * 9 + y - 9 == (x - 1) * 9 + y;
    }
  }

  lemma {:induction false} PosOfCell(x: nat, y: nat)
    requires x < 9 && y < 9
    ensures ScanPos(y * 9 + x) == x * 9 + y
  {
    if y > 0 {
      PosOfCell(x, y - 1);
      assert y * 9 + x - 9 == (y - 1) * 9 + x;
    }
  }

  /** Cell `(x, y)` sits at scan position `x * 9 + y`. */
  lemma ScanCoords(x: nat, y: nat)
    requires x < 9 && y < 9
    ensures ScanCell(x * 9 + y) == y * 9 + x && ScanPos(y * 9 + x) == x * 9 + y
  {
    CellOfPos(x, y);
    PosOfCell(x, y);
  }

  /** The two orders are inverse bijections of 0..80. */
  lemma ScanInverse(p: nat, c: nat)
    requires p < 81 && c < 81
    ensures ScanCell(p) < 81 && ScanPos(ScanCell(p)) == p
    ensures ScanPos(c) < 81 && ScanCell(ScanPos(c)) == c
  {
    DivMod9(p, p / 9, p % 9);
    ScanCoords(p / 9, p % 9);
    DivMod9(c, c / 9, c % 9);
    ScanCoords(c % 9, c / 9);
  }

  /** The wiring tables a board keeps: `lines[g]` lists line `g`'s members and
      `groups[c]` names cell `c`'s row, column and square. */
  predicate Wired(lines: seq<seq<nat>>, groups: seq<seq<nat>>) {
    && |lines| == 27 && (forall g | 0 <= g < 27 :: |lines[g]| == 9 && forall j | 0 <= j < 9 :: lines[g][j] == Member(g, j))
    && |groups| == 81 && (forall c | 0 <= c < 81 :: groups[c] == [LineOf(c, 0), LineOf(c, 1), LineOf(c, 2)])
  }
}
