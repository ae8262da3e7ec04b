/**
 The 9x9 grid. A cell is named by its index 0..80 in row-major order:
 A1 is 0, A9 is 8, B1 is 9, ..., I9 is 80. This is the order in which the
 boards are built from their 81-character strings, and so the order in
 which every loop over the board's keys visits the cells.
 */
module Grid {

  type Cell = i: int | 0 <= i < 81

  /** A board value: 0 for an unknown cell, 1..9 for a fixed digit. */
  type CellValue = x: int | 0 <= x <= 9

  /** A board: one value per cell, in row-major order. */
  type Board = b: seq<CellValue> | |b| == 81 witness seq(81, _ => 0)

  /** The candidate lists, one per cell, in row-major order. */
  type Domains = d: seq<seq<int>> | |d| == 81 witness seq(81, _ => [])

  /** Row index (0 for row A) and column index (0 for column 1). */
  function Row(c: Cell): int { c / 9 }
  function Col(c: Cell): int { c % 9 }

  /** Shares the row or the column with `a`, and is not `a`. */
  predicate LinePeer(a: Cell, b: Cell) {
    a != b && (Row(a) == Row(b) || Col(a) == Col(b))
  }

  /** Lies in the same 3x3 box as `a`, and is not `a`. */
  predicate BoxPeer(a: Cell, b: Cell) {
    a != b && Row(a) / 3 == Row(b) / 3 && Col(a) / 3 == Col(b) / 3
  }

  /** A peer: same row, same column or same box; never the cell itself. */
  predicate Peer(a: Cell, b: Cell) {
    LinePeer(a, b) || BoxPeer(a, b)
  }

  /** No cell holds 0. */
  predicate Completed(b: Board) {
    forall k | 0 <= k < 81 :: b[k] != 0
  }

  /** A complete board on which no two peers hold the same digit. */
  predicate ValidSolution(b: Board) {
    Completed(b) && forall i, j | 0 <= i < 81 && 0 <= j < 81 && Peer(i, j) :: b[i] != b[j]
  }

  /** `b1` keeps every fixed value of `b0`. */
  predicate Extends(b0: Board, b1: Board) {
    forall k | 0 <= k < 81 :: b0[k] != 0 ==> b1[k] == b0[k]
  }

  /** The number of unknown cells. */
  function ZeroCount(b: seq<CellValue>): (r: nat)
    ensures r <= |b|
    ensures r == 0 <==> forall k | 0 <= k < |b| :: b[k] != 0
  {
    if b == [] then 0
    else (if b[|b| - 1] == 0 then 1 else 0) + ZeroCount(b[..|b| - 1])
  }

  /** Filling an unknown cell lowers the number of unknown cells by one. */
  lemma {:induction false} ZeroCountFill(b: seq<CellValue>, x: int, v: CellValue)
    requires 0 <= x < |b| && b[x] == 0 && v != 0
    ensures ZeroCount(b[x := v]) == ZeroCount(b) - 1
  {
    var n := |b| - 1;
    if x == n {
      assert b[x := v][..n] == b[..n];
    } else {
      assert b[x := v][..n] == b[..n][x := v];
      ZeroCountFill(b[..n], x, v);
    }
  }

  /** Being peers does not depend on the order of the two cells. */
  lemma PeerSymmetric(a: Cell, b: Cell)
    ensures Peer(a, b) <==> Peer(b, a)
  {
  }

  /** The cell in row `r` and column `c`. */
  lemma CellCoordinates(r: int, c: int)
    requires 0 <= r < 9 && 0 <= c < 9
    ensures 0 <= 9 * r + c < 81
    ensures Row(9 * r + c) == r && Col(9 * r + c) == c
  {
  }

  /** The digits 1..9. */
  const Digits: set<int> := {1, 2, 3, 4, 5, 6, 7, 8, 9}

  /** The cells of row `r`, of column `c` and of box `g`, each in reading order. */
  function RowCells(r: int): seq<Cell>
    requires 0 <= r < 9
  {
    seq(9, c requires 0 <= c < 9 => 9 * r + c)
  }

  function ColCells(c: int): seq<Cell>
    requires 0 <= c < 9
  {
    seq(9, r requires 0 <= r < 9 => 9 * r + c)
  }

  function BoxCells(g: int): seq<Cell>
    requires 0 <= g < 9
  {
    seq(9, i requires 0 <= i < 9 => 9 * (3 * (g / 3) + i / 3) + 3 * (g % 3) + i % 3)
  }

  /** The values a board holds on a group of cells, in order, and as a set. */
  function GroupSeq(b: Board, cells: seq<Cell>): seq<int> {
    seq(|cells|, i requires 0 <= i < |cells| => b[cells[i]])
  }

  function GroupValues(b: Board, cells: seq<Cell>): set<int> {
    set x | x in GroupSeq(b, cells)
  }

  /** A sequence without repeats has as many values as elements. */
  lemma {:induction false} DistinctCount(s: seq<int>)
    requires forall i, j | 0 <= i < j < |s| :: s[i] != s[j]
    ensures |set x | x in s| == |s|
  {
    if s != [] {
      var t := s[..|s| - 1];
      DistinctCount(t);
      assert (set x | x in s) == (set x | x in t) + {s[|s| - 1]};
    }
  }

  /** Nine different digits are all the digits. */
  lemma NineDistinctDigits(s: seq<int>)
    requires |s| == 9
    requires forall i, j | 0 <= i < j < 9 :: s[i] != s[j]
    requires forall i | 0 <= i < 9 :: 1 <= s[i] <= 9
    ensures (set x | x in s) == Digits
  {
    DistinctCount(s);
    var S := set x | x in s;
    assert S <= Digits;
    assert S + Digits == Digits && S * Digits == S && S - Digits == {};
    assert |Digits - S| == 0;
  }

  /** Nine pairwise-peer cells of a valid solution hold each digit once. */
  lemma GroupHoldsAllDigits(b: Board, cells: seq<Cell>)
    requires ValidSolution(b) && |cells| == 9
    requires forall i, j | 0 <= i < j < 9 :: Peer(cells[i], cells[j])
    ensures GroupValues(b, cells) == Digits
  {
    var vals := GroupSeq(b, cells);
    forall i, j | 0 <= i < j < 9 ensures vals[i] != vals[j] {
      assert Peer(cells[i], cells[j]);
    }
    forall i | 0 <= i < 9 ensures 1 <= vals[i] <= 9 {
      assert b[cells[i]] != 0;
    }
    NineDistinctDigits(vals);
  }

  /** Where the `i`-th cell of box `g` lies. */
  lemma BoxCellCoordinates(g: int, i: int)
    requires 0 <= g < 9 && 0 <= i < 9
    ensures Row(BoxCells(g)[i]) == 3 * (g / 3) + i / 3
    ensures Col(BoxCells(g)[i]) == 3 * (g % 3) + i % 3
  {
    CellCoordinates(3 * (g / 3) + i / 3, 3 * (g % 3) + i % 3);
  }

  lemma RowPeers(r: int)
    requires 0 <= r < 9
    ensures forall i, j | 0 <= i < j < 9 :: Peer(RowCells(r)[i], RowCells(r)[j])
  {
    forall i, j | 0 <= i < j < 9 ensures Peer(RowCells(r)[i], RowCells(r)[j]) {
      CellCoordinates(r, i);
      CellCoordinates(r, j);
    }
  }

  lemma ColPeers(c: int)
    requires 0 <= c < 9
    ensures forall i, j | 0 <= i < j < 9 :: Peer(ColCells(c)[i], ColCells(c)[j])
  {
    forall i, j | 0 <= i < j < 9 ensures Peer(ColCells(c)[i], ColCells(c)[j]) {
      CellCoordinates(i, c);
      CellCoordinates(j, c);
    }
  }

  lemma BoxPeers(g: int)
    requires 0 <= g < 9
    ensures forall i, j | 0 <= i < j < 9 :: Peer(BoxCells(g)[i], BoxCells(g)[j])
  {
    forall i, j | 0 <= i < j < 9 ensures Peer(BoxCells(g)[i], BoxCells(g)[j]) {
      BoxCellCoordinates(g, i);
      BoxCellCoordinates(g, j);
      var a, c := BoxCells(g)[i], BoxCells(g)[j];
      assert Row(a) / 3 == g / 3 == Row(c) / 3;
      assert Col(a) / 3 == g % 3 == Col(c) / 3;
      assert i / 3 != j / 3 || i % 3 != j % 3;
    }
  }

  /** In a valid solution every row, column and box is a permutation of 1..9. */
  lemma ValidSolutionGroups(b: Board)
    requires ValidSolution(b)
    ensures forall r | 0 <= r < 9 :: GroupValues(b, RowCells(r)) == Digits
    ensures forall c | 0 <= c < 9 :: GroupValues(b, ColCells(c)) == Digits
    ensures forall g | 0 <= g < 9 :: GroupValues(b, BoxCells(g)) == Digits
  {
    forall r | 0 <= r < 9 ensures GroupValues(b, RowCells(r)) == Digits {
      RowPeers(r);
      GroupHoldsAllDigits(b, RowCells(r));
    }
    forall c | 0 <= c < 9 ensures GroupValues(b, ColCells(c)) == Digits {
      ColPeers(c);
      GroupHoldsAllDigits(b, ColCells(c));
    }
    forall g | 0 <= g < 9 ensures GroupValues(b, BoxCells(g)) == Digits {
      BoxPeers(g);
      GroupHoldsAllDigits(b, BoxCells(g));
    }
  }
}
