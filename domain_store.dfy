/**
 The domain store: one candidate list per cell, the forward-checking rule
 that prunes the lists when a cell is fixed, and the initial store built
 from the clues of a puzzle.
 */
module DomainStore {
  import opened Grid
  import opened CandidateLists

  /** Every list is a candidate list, and a fixed cell has at most one candidate. */
  predicate WellFormed(board: Board, dom: Domains) {
    && (forall k | 0 <= k < 81 :: CandidateList(dom[k]))
    && (forall k | 0 <= k < 81 :: board[k] != 0 ==> |dom[k]| <= 1)
  }

  /** No cell has run out of candidates. */
  predicate AllNonEmpty(dom: Domains) {
    forall k | 0 <= k < 81 :: dom[k] != []
  }

  /**
   The store agrees with the board: a fixed cell's list is exactly its
   value, and no peer of a fixed cell still lists that value.
   */
  predicate Propagated(board: Board, dom: Domains) {
    && (forall k | 0 <= k < 81 :: board[k] != 0 ==> dom[k] == [board[k]])
    && (forall i, j | 0 <= i < 81 && 0 <= j < 81 && Peer(i, j) :: board[i] != 0 ==> board[i] !in dom[j])
  }

  /** Every list has at most one candidate left. */
  predicate Determined(dom: Domains) {
    forall k | 0 <= k < 81 :: |dom[k]| <= 1
  }

  /**
   Forward checking from cell `s` fixed to `v`: `v` leaves the list of
   every row, column and box peer of `s`. Nothing else changes.
   */
  function Reduce(d: Domains, s: Cell, v: int): (r: Domains)
    ensures r[s] == d[s]
    ensures forall k | 0 <= k < 81 && Peer(s, k) :: v !in r[k]
    ensures forall k, x | 0 <= k < 81 :: x in r[k] <==> x in d[k] && !(Peer(s, k) && x == v)
    ensures forall k | 0 <= k < 81 :: |r[k]| <= |d[k]|
  {
    seq(81, k requires 0 <= k < 81 => if Peer(s, k) then Without(d[k], v) else d[k])
  }

  /** A list that does not hold `v` is left exactly as it was. */
  lemma ReduceAbsent(d: Domains, s: Cell, v: int, k: Cell)
    requires v !in d[k]
    ensures Reduce(d, s, v)[k] == d[k]
  {
    WithoutAbsent(d[k], v);
  }

  /** Propagating the same fixed cell twice gives the lists of propagating it once. */
  lemma ReduceIdempotent(d: Domains, s: Cell, v: int)
    ensures Reduce(Reduce(d, s, v), s, v) == Reduce(d, s, v)
  {
    var once := Reduce(d, s, v);
    forall k | 0 <= k < 81 ensures Reduce(once, s, v)[k] == once[k] {
      if Peer(s, k) {
        WithoutIdempotent(d[k], v);
      }
    }
  }

  /** Propagation keeps every list a candidate list and never enlarges one. */
  lemma ReduceCandidateLists(d: Domains, s: Cell, v: int)
    requires forall k | 0 <= k < 81 :: CandidateList(d[k])
    ensures forall k | 0 <= k < 81 :: CandidateList(Reduce(d, s, v)[k])
  {
    forall k | 0 <= k < 81 ensures CandidateList(Reduce(d, s, v)[k]) {
      WithoutCandidateList(d[k], v);
    }
  }

  /** The store before propagation: [1..9] for a blank cell, [value] for a clue. */
  function Initial(board: Board): Domains {
    seq(81, k requires 0 <= k < 81 => if board[k] == 0 then AllDigits else [board[k]])
  }

  /** The store after propagating, in row-major order, every clue among the first `n` cells. */
  function PropagateClues(board: Board, n: nat): Domains
    requires n <= 81
  {
    if n == 0 then Initial(board)
    else
      var d := PropagateClues(board, n - 1);
      if board[n - 1] != 0 then Reduce(d, n - 1, board[n - 1]) else d
  }

  /** The store the search starts from. */
  function InitDomains(board: Board): Domains {
    PropagateClues(board, 81)
  }

  /**
   What initialisation leaves after `n` cells: candidate lists, a clue's
   list is its value or empty, and a value stays in a list exactly when it
   was there at the start and no clue among the first `n` cells that is a
   peer holds it.
   */
  ghost predicate InitialisedUpTo(board: Board, d: Domains, n: nat) {
    && (forall k | 0 <= k < 81 :: CandidateList(d[k]))
    && (forall k | 0 <= k < 81 :: board[k] != 0 ==> d[k] == [board[k]] || d[k] == [])
    && (forall k, x | 0 <= k < 81 :: x in d[k] <==> x in Initial(board)[k] && !HeldByPeer(board, n, k, x))
  }

  /** Some peer of `k` among the first `n` cells holds `x` on the board. */
  predicate HeldByPeer(board: Board, n: nat, k: Cell, x: int) {
    exists i | 0 <= i < n && i < 81 :: Peer(i, k) && board[i] == x
  }

  /** Widening the clues considered by one cell adds exactly that cell's value, when it is a peer. */
  lemma HeldByPeerStep(board: Board, n: nat, k: Cell, x: int)
    requires 0 < n <= 81
    ensures HeldByPeer(board, n, k, x) <==> HeldByPeer(board, n - 1, k, x) || (Peer(n - 1, k) && board[n - 1] == x)
  {
    if Peer(n - 1, k) && board[n - 1] == x {
      assert HeldByPeer(board, n, k, x) by {
        var i := n - 1;
        assert Peer(i, k) && board[i] == x;
      }
    }
  }

  /** Propagating cell `n - 1` extends the invariant from `n - 1` cells to `n`. */
  lemma PropagateStep(board: Board, n: nat)
    requires 0 < n <= 81
    requires InitialisedUpTo(board, PropagateClues(board, n - 1), n - 1)
    ensures InitialisedUpTo(board, PropagateClues(board, n), n)
  {
    var d := PropagateClues(board, n - 1);
    var s := n - 1;
    var r := PropagateClues(board, n);
    if board[s] != 0 {
      ReduceCandidateLists(d, s, board[s]);
      forall k | 0 <= k < 81 && board[k] != 0 ensures r[k] == [board[k]] || r[k] == [] {
        if Peer(s, k) && d[k] != [] {
          assert d[k] == [board[k]];
          assert d[k][1..] == [];
        }
      }
    }
    forall k, x | 0 <= k < 81 ensures x in r[k] <==> x in Initial(board)[k] && !HeldByPeer(board, n, k, x) {
      HeldByPeerStep(board, n, k, x);
    }
  }

  lemma {:induction false} PropagateCluesInvariant(board: Board, n: nat)
    requires n <= 81
    ensures InitialisedUpTo(board, PropagateClues(board, n), n)
  {
    if n == 0 {
      AllDigitsCandidateList();
    } else {
      PropagateCluesInvariant(board, n - 1);
      PropagateStep(board, n);
    }
  }

  /** The initial store is well formed, and healthy unless some list came out empty. */
  lemma InitDomainsWellFormed(board: Board)
    ensures WellFormed(board, InitDomains(board))
    ensures AllNonEmpty(InitDomains(board)) ==> Propagated(board, InitDomains(board))
  {
    PropagateCluesInvariant(board, 81);
  }

  /**
   `list.remove` on the list of cell `sq`, as the source does it: only when
   `v` is there and `sq` is not `s`.
   */
  method RemoveFrom(dom: array<seq<int>>, sq: Cell, s: Cell, v: int)
    requires dom.Length == 81
    requires Distinct(dom[sq])
    modifies dom
    ensures dom[sq] == if sq != s then Without(old(dom[sq]), v) else old(dom[sq])
    ensures forall k | 0 <= k < 81 && k != sq :: dom[k] == old(dom[k])
  {
    if v in dom[sq] && sq != s {
      RemoveFirstDistinct(dom[sq], v);
      dom[sq] := RemoveFirst(dom[sq], v);
    } else if sq != s {
      WithoutAbsent(dom[sq], v);
    }
  }

  /** The pass over the 3x3 box in box-row `gi`, box-column `gj`, visited row by row. */
  method ClearBlock(dom: array<seq<int>>, gi: int, gj: int, s: Cell, v: int)
    requires dom.Length == 81 && 0 <= gi < 3 && 0 <= gj < 3
    requires forall k | 0 <= k < 81 :: Distinct(dom[k])
    modifies dom
    ensures forall k | 0 <= k < 81 ::
      dom[k] == if k != s && Row(k) / 3 == gi && Col(k) / 3 == gj then Without(old(dom[k]), v) else old(dom[k])
  {
    var r := 0;
    while r < 3
      invariant 0 <= r <= 3
      invariant forall k | 0 <= k < 81 ::
        dom[k] == if k != s && 3 * gi <= Row(k) < 3 * gi + r && Col(k) / 3 == gj then Without(old(dom[k]), v) else old(dom[k])
    {
      var c := 0;
      while c < 3
        invariant 0 <= c <= 3
        invariant forall k | 0 <= k < 81 ::
          dom[k] == if k != s && ((3 * gi <= Row(k) < 3 * gi + r && Col(k) / 3 == gj) || (Row(k) == 3 * gi + r && 3 * gj <= Col(k) < 3 * gj + c))
                    then Without(old(dom[k]), v) else old(dom[k])
      {
        var sq := 9 * (3 * gi + r) + (3 * gj + c);
        CellCoordinates(3 * gi + r, 3 * gj + c);
        RemoveFrom(dom, sq, s, v);
        c := c + 1;
      }
      r := r + 1;
    }
  }

  /**
   The box part of the rule: look through the three row groups and the
   three column groups for the box of `s`, and clear that box.
   */
  method BoxPass(dom: array<seq<int>>, s: Cell, v: int)
    requires dom.Length == 81
    requires forall k | 0 <= k < 81 :: Distinct(dom[k])
    modifies dom
    ensures forall k | 0 <= k < 81 :: dom[k] == if BoxPeer(s, k) then Without(old(dom[k]), v) else old(dom[k])
  {
    var gi := 0;
    while gi < 3
      invariant 0 <= gi <= 3
      invariant forall k | 0 <= k < 81 ::
        dom[k] == if BoxPeer(s, k) && Row(s) / 3 < gi then Without(old(dom[k]), v) else old(dom[k])
    {
      var gj := 0;
      while gj < 3
        invariant 0 <= gj <= 3
        invariant forall k | 0 <= k < 81 ::
          dom[k] == if BoxPeer(s, k) && (Row(s) / 3 < gi || (Row(s) / 3 == gi && Col(s) / 3 < gj))
                    then Without(old(dom[k]), v) else old(dom[k])
      {
        if Row(s) / 3 == gi && Col(s) / 3 == gj {
          ClearBlock(dom, gi, gj, s, v);
        }
        gj := gj + 1;
      }
      gi := gi + 1;
    }
  }

  /**
   reduce_domain: the cell `s` holds `board[s]`; remove that value from the
   list of every other cell in its row or column and, on every pass of the
   key loop, from every other cell of its box. Every list must be free of
   repeats, as every list the solver builds is.
   */
  method ReduceDomain(dom: array<seq<int>>, s: Cell, board: Board)
    requires dom.Length == 81
    requires forall k | 0 <= k < 81 :: Distinct(dom[k])
    modifies dom
    ensures dom[..] == Reduce(old(dom[..]), s, board[s])
  {
    var v := board[s];
    var key := 0;
    while key < 81
      invariant 0 <= key <= 81
      invariant forall k | 0 <= k < 81 ::
        dom[k] == if (k < key && LinePeer(s, k)) || (0 < key && BoxPeer(s, k)) then Without(old(dom[k]), v) else old(dom[k])
    {
      if (Row(key) == Row(s) || Col(key) == Col(s)) && key != s {
        RemoveFrom(dom, key, s, v);
        WithoutIdempotent(old(dom[key]), v);
      }
      BoxPass(dom, s, v);
      forall k | 0 <= k < 81 && BoxPeer(s, k) ensures dom[k] == Without(old(dom[k]), v) {
        WithoutIdempotent(old(dom[k]), v);
      }
      key := key + 1;
    }
    assert forall k | 0 <= k < 81 :: dom[..][k] == Reduce(old(dom[..]), s, v)[k];
  }
}
