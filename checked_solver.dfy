/**
 Two inputs on which backtracking does not do what its callers expect,
 each exhibited on the solver as written, and the corrected solver that
 checks the initial store before searching.
 */
module CheckedSolver {
  import opened Grid
  import opened CandidateLists
  import opened DomainStore
  import opened SearchSpec
  import opened SearchEngine

  /** A complete board is returned as it is, whatever its clues. */
  lemma CompleteBoardReturned(board: Board)
    requires Completed(board)
    ensures Solve(board) == Found(board)
  {
  }

  /**
   A complete board with clashing clues is returned as solved: here every
   cell holds 1.
   */
  lemma InvalidCompleteBoardReturned(board: Board)
    requires forall k | 0 <= k < 81 :: board[k] == 1
    ensures Solve(board) == Found(board)
    ensures !ValidSolution(board)
  {
    CompleteBoardReturned(board);
    assert Peer(0, 1);
  }

  /**
   When the clues leave every blank cell without a candidate, no cell can
   be selected: the search ends in the KeyError, not in `None`.
   */
  lemma {:induction false} NoCandidateRaises(board: Board)
    requires !Completed(board)
    requires forall k, x | 0 <= k < 81 && board[k] == 0 && 1 <= x <= 9 :: HeldByPeer(board, 81, k, x)
    ensures Solve(board) == MissingKey
  {
    var d := InitDomains(board);
    PropagateCluesInvariant(board, 81);
    InitDomainsWellFormed(board);
    forall k | 0 <= k < 81 && board[k] == 0 ensures d[k] == [] {
      forall x | 1 <= x <= 9 ensures x !in d[k] {
        assert HeldByPeer(board, 81, k, x);
      }
      NoDigitEmpty(d[k]);
    }
    SelectChoice(d, board);
  }

  /**
   An instance: row A holds 1..8 with A9 blank, every other cell holds 9.
   A9 loses 1..8 to its row and 9 to its column.
   */
  lemma DeadEndRaises(board: Board)
    requires forall i | 0 <= i < 81 :: board[i] == if i < 8 then i + 1 else if i == 8 then 0 else 9
    ensures Solve(board) == MissingKey
  {
    forall k, x | 0 <= k < 81 && board[k] == 0 && 1 <= x <= 9 ensures HeldByPeer(board, 81, k, x) {
      var i := if x == 9 then 17 else x - 1;
      assert Peer(i, k) && board[i] == x;
    }
    assert board[8] == 0;
    NoCandidateRaises(board);
  }

  /**
   backtracking as evidently intended: a puzzle whose clues already leave
   some list empty has no solution, whether or not it has blank cells.
   */
  function SolveChecked(board: Board): (r: Outcome)
    ensures r.Found? ==> ValidSolution(r.board) && Extends(board, r.board)
    ensures !r.MissingKey?
    ensures r.Found? <==> exists b: Board :: ValidSolution(b) && Extends(board, b)
  {
    InitDomainsWellFormed(board);
    var d := InitDomains(board);
    SolveCorrect(board);
    if AllNonEmpty(d) then
      SearchSound(board, d);
      Search(board, d)
    else
      Exhausted
  }

  /** The corrected backtracking: no search from a store with an empty list. */
  method BacktrackingChecked(board: Board) returns (r: Outcome)
    ensures r == SolveChecked(board)
  {
    var dom := InitialStore(board);
    InitDomainsWellFormed(board);
    for k := 0 to 81
      invariant forall j | 0 <= j < k :: dom[j] != []
    {
      if dom[k] == [] {
        return Exhausted;
      }
    }
    r := BacktrackingHelper(board, dom);
  }
}
