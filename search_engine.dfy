/**
 The solver as it runs: scans with loops, the trial on fresh copies of the
 board and the store, the selection loop with its running minimum, and the
 recursive search. Each method is proved to compute the function of
 SearchSpec that it implements, so everything proved there holds of it.
 */
module SearchEngine {
  import opened Grid
  import opened CandidateLists
  import opened DomainStore
  import opened SearchSpec

  /** board_completed: true exactly when no cell holds 0. */
  method BoardCompleted(board: Board) returns (done: bool)
    ensures done <==> Completed(board)
  {
    for k := 0 to 81
      invariant forall j | 0 <= j < k :: board[j] != 0
    {
      if board[k] == 0 {
        return false;
      }
    }
    return true;
  }

  /** domain_done: true exactly when every list has at most one candidate. */
  method DomainDone(dom: Domains) returns (done: bool)
    ensures done <==> Determined(dom)
  {
    for k := 0 to 81
      invariant forall j | 0 <= j < k :: |dom[j]| <= 1
    {
      if |dom[k]| > 1 {
        return false;
      }
    }
    return true;
  }

  /** A well-formed store of a complete board is fully determined. */
  lemma CompletedDetermined(board: Board, dom: Domains)
    requires WellFormed(board, dom) && Completed(board)
    ensures Determined(dom)
  {
  }

  /**
   value_consistent: the trial runs on a fresh copy of the store (and a
   copy of the board), so the caller's state is left as it was.
   */
  method ValueConsistent(choice: CellValue, x: Cell, board: Board, dom: Domains) returns (r: Option<State>)
    requires forall k | 0 <= k < 81 :: Distinct(dom[k])
    ensures r == Trial(choice, x, board, dom)
  {
    var testBoard := board;
    var testDom := new seq<int>[81](k requires 0 <= k < 81 => dom[k]);
    testBoard := testBoard[x := choice];
    testDom[x] := [choice];
    assert testDom[..] == dom[x := [choice]];
    ReduceDomain(testDom, x, testBoard);
    for k := 0 to 81
      invariant forall j | 0 <= j < k :: testDom[j] != []
    {
      if testDom[k] == [] {
        return None;
      }
    }
    return Some(State(testDom[..], testBoard));
  }

  /**
   select_variable: one pass over the cells in row-major order, keeping the
   shortest list seen so far in `minLen` and its cell in `name`.
   */
  method SelectVariable(dom: Domains, board: Board) returns (name: Option<Cell>)
    ensures name == Select(dom, board)
  {
    var minLen := 10;
    name := None;
    for k := 0 to 81
      invariant Pick(minLen, name) == SelectFold(dom, board, k)
    {
      var len := |dom[k]|;
      if minLen > len && len > 1 {
        minLen, name := len, Some(k);
      } else if minLen > len && len == 1 {
        if board[k] == 0 {
          minLen, name := len, Some(k);
        }
      }
    }
  }

  /** backtracking_helper, with its loop over the candidates of the selected cell. */
  method BacktrackingHelper(board: Board, dom: Domains) returns (r: Outcome)
    requires WellFormed(board, dom)
    ensures r == Search(board, dom)
    decreases ZeroCount(board)
  {
    var done := BoardCompleted(board);
    if done {
      return Found(board);
    }
    var pick := SelectVariable(dom, board);
    if pick.None? {
      return MissingKey;
    }
    var x := pick.value;
    SelectUnassigned(dom, board);
    forall k | 0 <= k < 81 ensures Distinct(dom[k]) {
      CandidateListDistinct(dom[k]);
    }
    var choices := dom[x];
    var i := 0;
    while i < |choices|
      invariant 0 <= i <= |choices|
      invariant TryChoices(board, dom, x, choices[i..]) == Search(board, dom)
    {
      assert choices[i..][1..] == choices[i + 1..];
      var trial := ValueConsistent(choices[i], x, board, dom);
      if trial.Some? {
        TrialWellFormed(choices[i], x, board, dom);
        ZeroCountFill(board, x, choices[i]);
        var result := BacktrackingHelper(trial.value.board, trial.value.dom);
        if !result.Exhausted? {
          return result;
        }
      }
      i := i + 1;
    }
    return Exhausted;
  }

  /**
   The first half of backtracking: fill a fresh store entry by entry,
   then propagate every clue in row-major order.
   */
  method InitialStore(board: Board) returns (store: Domains)
    ensures store == InitDomains(board)
  {
    var dom := new seq<int>[81];
    for k := 0 to 81
      invariant forall j | 0 <= j < k :: dom[j] == Initial(board)[j]
    {
      if board[k] == 0 {
        dom[k] := [1, 2, 3, 4, 5, 6, 7, 8, 9];
      } else {
        dom[k] := [board[k]];
      }
    }
    assert dom[..] == PropagateClues(board, 0);
    for k := 0 to 81
      invariant dom[..] == PropagateClues(board, k)
    {
      PropagateCluesInvariant(board, k);
      forall j | 0 <= j < 81 ensures Distinct(dom[j]) {
        CandidateListDistinct(dom[j]);
      }
      if board[k] != 0 {
        ReduceDomain(dom, k, board);
      }
    }
    store := dom[..];
  }

  /** backtracking: build the initial store, then search. */
  method Backtracking(board: Board) returns (r: Outcome)
    ensures r == Solve(board)
  {
    var dom := InitialStore(board);
    InitDomainsWellFormed(board);
    r := BacktrackingHelper(board, dom);
  }
}
