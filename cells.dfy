/** The state of one square: its value (0 while empty), its nine candidate
    slots (`canBe[d]` for digit `d + 1`) and the number of candidates left. */
module Cells {

  datatype Cell = Cell(val: int, canBe: seq<bool>, count: int)

  /** The number of true slots. */
  function Trues(s: seq<bool>): nat {
    if s == [] then 0 else Trues(s[..|s| - 1]) + (if s[|s| - 1] then 1 else 0)
  }

  /** The digits whose slots are true, in ascending order. */
  function Candidates(s: seq<bool>): seq<int> {
    if s == [] then [] else Candidates(s[..|s| - 1]) + (if s[|s| - 1] then [|s|] else [])
  }

  /** A well-formed cell: a value in 0..9, nine slots, and `count` equal to
      the number of slots still true. */
  predicate Wf(x: Cell) {
    0 <= x.val <= 9 && |x.canBe| == 9 && x.count == Trues(x.canBe)
  }

  const AllCandidates: seq<bool> := seq(9, _ => true)
  const NoCandidates: seq<bool> := seq(9, _ => false)

  /** A cell as `Cell.__init__` creates it: empty, every digit possible. */
  const Fresh: Cell := Cell(0, AllCandidates, 9)

  lemma {:induction false} TruesConstant(n: nat, b: bool)
    ensures Trues(seq(n, _ => b)) == if b then n else 0
  {
    if n > 0 {
      assert seq(n, _ => b)[..n - 1] == seq(n - 1, _ => b);
      TruesConstant(n - 1, b);
    }
  }

  lemma FreshWf()
    ensures Wf(Fresh) && Trues(NoCandidates) == 0
  {
    TruesConstant(9, true);
    TruesConstant(9, false);
  }

  /** Clearing a true slot removes exactly one from the count. */
  lemma {:induction false} TruesClear(s: seq<bool>, j: nat)
    requires j < |s| && s[j]
    ensures Trues(s[j := false]) == Trues(s) - 1
  {
    var n := |s|;
    if j < n - 1 {
      assert s[j := false][..n - 1] == s[..n - 1][j := false];
      TruesClear(s[..n - 1], j);
    } else {
      assert s[j := false][..n - 1] == s[..n - 1];
    }
  }

  /** With no true slot the count is zero, and a positive count has a true slot. */
  lemma {:induction false} TruesZero(s: seq<bool>)
    ensures Trues(s) == 0 <==> forall j | 0 <= j < |s| :: !s[j]
  {
    if s != [] {
      var n := |s|;
      TruesZero(s[..n - 1]);
      assert forall j | 0 <= j < n - 1 :: s[..n - 1][j] == s[j];
    }
  }

  lemma {:induction false} TruesBound(s: seq<bool>)
    ensures Trues(s) <= |s|
  {
    if s != [] {
      TruesBound(s[..|s| - 1]);
    }
  }

  /** A cell after `Cell.cant_be(i)`: an empty cell loses candidate `i`,
      keeping its count equal to its true slots; a filled cell is unchanged. */
  function CantBe(x: Cell, i: int): (r: Cell)
    requires Wf(x) && 1 <= i <= 9
    ensures Wf(r) && r.val == x.val
    ensures forall d | 0 <= d < 9 :: r.canBe[d] == (x.canBe[d] && !(x.val == 0 && d == i - 1))
  {
    if x.val == 0 && x.canBe[i - 1] then
      TruesClear(x.canBe, i - 1);
      x.(count := x.count - 1, canBe := x.canBe[i - 1 := false])
    else
      x
  }

  /** With a count of one, the true slot is the only one. */
  lemma TruesOne(s: seq<bool>, j: nat)
    requires j < |s| && s[j] && Trues(s) == 1
    ensures forall k | 0 <= k < |s| && k != j :: !s[k]
  {
    TruesClear(s, j);
    TruesZero(s[j := false]);
    assert forall k | 0 <= k < |s| && k != j :: s[j := false][k] == s[k];
  }

  /** `Candidates` lists exactly the digits whose slot is true ... */
  lemma {:induction false} CandidatesMembers(s: seq<bool>)
    ensures forall d :: d in Candidates(s) <==> 1 <= d <= |s| && s[d - 1]
  {
    if s != [] {
      var n := |s|;
      CandidatesMembers(s[..n - 1]);
      assert forall j | 0 <= j < n - 1 :: s[..n - 1][j] == s[j];
    }
  }

  /** ... strictly ascending ... */
  lemma {:induction false} CandidatesAscending(s: seq<bool>)
    ensures forall p, q | 0 <= p < q < |Candidates(s)| :: Candidates(s)[p] < Candidates(s)[q]
  {
    if s != [] {
      var n := |s|;
      CandidatesAscending(s[..n - 1]);
      CandidatesMembers(s[..n - 1]);
      var pre := Candidates(s[..n - 1]);
      assert forall p | 0 <= p < |pre| :: pre[p] in pre && pre[p] < n;
    }
  }

  /** ... and there are as many of them as true slots. */
  lemma {:induction false} CandidatesCount(s: seq<bool>)
    ensures |Candidates(s)| == Trues(s)
  {
    if s != [] {
      CandidatesCount(s[..|s| - 1]);
    }
  }

  /** `Cell.get_pos`: the list of digits the cell may still take. */
  method GetPos(x: Cell) returns (pos: seq<int>)
    requires |x.canBe| == 9
    ensures pos == Candidates(x.canBe)
  {
    pos := [];
    for i := 0 to 9
      invariant pos == Candidates(x.canBe[..i])
    {
      assert x.canBe[..i + 1][..i] == x.canBe[..i];
      if x.canBe[i] {
        pos := pos + [i + 1];
      }
    }
    assert x.canBe[..9] == x.canBe;
  }
}
