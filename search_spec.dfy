/**
 The search engine as functions on (board, store) values: the trial
 assignment, the minimum-remaining-values choice of a cell, the
 depth-first search and the top-level solver; with the properties the
 solver promises — a returned board is a valid completion keeping every
 clue, and the search fails only when no valid completion exists.
 */
module SearchSpec {
  import opened Grid
  import opened CandidateLists
  import opened DomainStore

  datatype Option<T> = None | Some(value: T)

  /**
   The outcome of a search: a solved board, `None` when every choice
   failed, or the KeyError raised when no cell could be selected.
   */
  datatype Outcome = Found(board: Board) | Exhausted | MissingKey

  /** A trial state: the propagated store and the board with the new value. */
  datatype State = State(dom: Domains, board: Board)

  /** A state that passed every trial so far. */
  predicate Healthy(board: Board, dom: Domains) {
    WellFormed(board, dom) && AllNonEmpty(dom) && Propagated(board, dom)
  }

  // ---------------------------------------------------------------------
  // value_consistent
  // ---------------------------------------------------------------------

  /**
   Set `x` to `choice` on a copy of the board, make its list [choice] on a
   copy of the store, propagate from `x`, and fail if a list is empty.
   */
  function Trial(choice: CellValue, x: Cell, board: Board, dom: Domains): (r: Option<State>)
    ensures r.None? <==> !AllNonEmpty(Reduce(dom[x := [choice]], x, choice))
    ensures r.Some? ==> && r.value.board == board[x := choice]
                        && r.value.dom[x] == [choice]
                        && AllNonEmpty(r.value.dom)
                        && (forall k | 0 <= k < 81 && Peer(x, k) :: choice !in r.value.dom[k])
                        && (forall k | 0 <= k < 81 && k != x :: r.value.board[k] == board[k])
  {
    var b := board[x := choice];
    var d := Reduce(dom[x := [choice]], x, choice);
    if AllNonEmpty(d) then Some(State(d, b)) else None
  }

  /** A trial keeps the store well formed. */
  lemma TrialWellFormed(choice: CellValue, x: Cell, board: Board, dom: Domains)
    requires WellFormed(board, dom) && choice != 0
    ensures Trial(choice, x, board, dom).Some? ==>
      WellFormed(Trial(choice, x, board, dom).value.board, Trial(choice, x, board, dom).value.dom)
  {
    ReduceCandidateLists(dom[x := [choice]], x, choice);
  }

  /**
   A trial that succeeds from a healthy state gives a healthy state: the
   new value is out of every peer's list, and no earlier fixed value lost
   its own list, since that list would now be empty.
   */
  lemma TrialHealthy(choice: CellValue, x: Cell, board: Board, dom: Domains)
    requires Healthy(board, dom) && board[x] == 0 && choice != 0
    requires Trial(choice, x, board, dom).Some?
    ensures Healthy(Trial(choice, x, board, dom).value.board, Trial(choice, x, board, dom).value.dom)
  {
    TrialWellFormed(choice, x, board, dom);
    var next := Trial(choice, x, board, dom).value;
    var b, d := next.board, next.dom;
    forall k | 0 <= k < 81 && b[k] != 0 ensures d[k] == [b[k]] {
      if k != x {
        assert dom[k] == [board[k]];
        if Peer(x, k) {
          assert d[k] != [];
          assert board[k] != choice;
          WithoutAbsent(dom[k], choice);
        }
      }
    }
    forall i, j | 0 <= i < 81 && 0 <= j < 81 && Peer(i, j) && b[i] != 0 ensures b[i] !in d[j] {
      if i != x && j == x {
        PeerSymmetric(i, x);
        assert d[i] == [b[i]];
      }
    }
  }

  // ---------------------------------------------------------------------
  // select_variable
  // ---------------------------------------------------------------------

  /** The accumulators of the selection loop: `min_len` and `min_len_name`. */
  datatype Pick = Pick(minLen: int, name: Option<Cell>)

  /** One pass of the selection loop over cell `k`. */
  function SelectStep(p: Pick, dom: Domains, board: Board, k: Cell): Pick {
    var len := |dom[k]|;
    if p.minLen > len && len > 1 then Pick(len, Some(k))
    else if p.minLen > len && len == 1 then
      (if board[k] == 0 then Pick(len, Some(k)) else p)
    else p
  }

  /** The accumulators after the first `n` cells. */
  function SelectFold(dom: Domains, board: Board, n: nat): Pick
    requires n <= 81
  {
    if n == 0 then Pick(10, None) else SelectStep(SelectFold(dom, board, n - 1), dom, board, n - 1)
  }

  /** select_variable: `None` stands for the empty name "". */
  function Select(dom: Domains, board: Board): Option<Cell> {
    SelectFold(dom, board, 81).name
  }

  /** An unknown cell with exactly one candidate left. */
  predicate Forced(dom: Domains, board: Board, k: Cell) {
    board[k] == 0 && |dom[k]| == 1
  }

  /** A cell with more than one candidate, and fewer than the initial bound of 10. */
  predicate Branchable(dom: Domains, k: Cell) {
    1 < |dom[k]| < 10
  }

  /**
   The choice the rule makes among the first `n` cells: the first forced
   cell if there is one; otherwise the first cell whose list is shortest
   among the branchable ones; otherwise none.
   */
  predicate Chosen(dom: Domains, board: Board, n: int, p: Pick)
    requires 0 <= n <= 81
  {
    if exists i | 0 <= i < n :: Forced(dom, board, i) then
      && p.name.Some? && p.minLen == 1 && p.name.value < n
      && Forced(dom, board, p.name.value)
      && (forall i | 0 <= i < p.name.value :: !Forced(dom, board, i))
    else if exists i | 0 <= i < n :: Branchable(dom, i) then
      && p.name.Some? && p.name.value < n
      && Branchable(dom, p.name.value) && p.minLen == |dom[p.name.value]|
      && (forall i | 0 <= i < n && Branchable(dom, i) :: |dom[p.name.value]| <= |dom[i]|)
      && (forall i | 0 <= i < p.name.value && Branchable(dom, i) :: |dom[p.name.value]| < |dom[i]|)
    else
      p == Pick(10, None)
  }

  lemma {:induction false} SelectFoldChosen(dom: Domains, board: Board, n: nat)
    requires n <= 81
    ensures Chosen(dom, board, n, SelectFold(dom, board, n))
  {
    if n > 0 {
      SelectFoldChosen(dom, board, n - 1);
      var k := n - 1;
      var p := SelectFold(dom, board, k);
      var q := SelectFold(dom, board, n);
      if exists i | 0 <= i < k :: Forced(dom, board, i) {
        assert q == p;
      } else if Forced(dom, board, k) {
        assert q == Pick(1, Some(k));
      } else if exists i | 0 <= i < k :: Branchable(dom, i) {
        if Branchable(dom, k) && |dom[k]| < p.minLen {
          assert q == Pick(|dom[k]|, Some(k));
        } else {
          assert q == p;
        }
      } else if Branchable(dom, k) {
        assert q == Pick(|dom[k]|, Some(k));
      } else {
        assert q == p;
      }
    }
  }

  /**
   select_variable returns the first unknown cell with one candidate if
   there is one, else the first cell with the fewest candidates among
   those with two to nine, else the empty name.
   */
  lemma SelectChoice(dom: Domains, board: Board)
    ensures (exists i | 0 <= i < 81 :: Forced(dom, board, i)) ==>
      && Select(dom, board).Some?
      && Forced(dom, board, Select(dom, board).value)
      && (forall i | 0 <= i < Select(dom, board).value :: !Forced(dom, board, i))
    ensures (forall i | 0 <= i < 81 :: !Forced(dom, board, i)) && (exists i | 0 <= i < 81 :: Branchable(dom, i)) ==>
      && Select(dom, board).Some?
      && Branchable(dom, Select(dom, board).value)
      && (forall i | 0 <= i < 81 && Branchable(dom, i) :: |dom[Select(dom, board).value]| <= |dom[i]|)
      && (forall i | 0 <= i < Select(dom, board).value && Branchable(dom, i) :: |dom[Select(dom, board).value]| < |dom[i]|)
    ensures Select(dom, board).None? <==>
      forall i | 0 <= i < 81 :: !Forced(dom, board, i) && !Branchable(dom, i)
  {
    SelectFoldChosen(dom, board, 81);
  }

  /** On a well-formed store the selected cell is unknown and has a candidate. */
  lemma SelectUnassigned(dom: Domains, board: Board)
    requires WellFormed(board, dom)
    ensures Select(dom, board).Some? ==>
      board[Select(dom, board).value] == 0 && dom[Select(dom, board).value] != []
  {
    SelectChoice(dom, board);
  }

  /** When every list is non-empty and a cell is unknown, some cell is selected. */
  lemma SelectFindsCell(dom: Domains, board: Board)
    requires WellFormed(board, dom) && AllNonEmpty(dom) && !Completed(board)
    ensures Select(dom, board).Some?
  {
    var k :| 0 <= k < 81 && board[k] == 0;
    CandidateListShort(dom[k]);
    assert Forced(dom, board, k) || Branchable(dom, k);
    SelectChoice(dom, board);
  }

  // ---------------------------------------------------------------------
  // backtracking_helper and backtracking
  // ---------------------------------------------------------------------

  /**
   backtracking_helper: return a complete board as it is; otherwise select
   a cell and try its candidates in list order.
   */
  function Search(board: Board, dom: Domains): (r: Outcome)
    requires WellFormed(board, dom)
    ensures Completed(board) ==> r == Found(board)
    ensures r.Found? ==> Completed(r.board) && Extends(board, r.board)
    decreases ZeroCount(board), 1, 0
  {
    if Completed(board) then Found(board)
    else match Select(dom, board)
      case None => MissingKey
      case Some(x) =>
        SelectUnassigned(dom, board);
        TryChoices(board, dom, x, dom[x])
  }

  /**
   The loop over the candidates of `x`: a trial that fails is skipped; a
   trial that succeeds is searched, and its result returned unless it is
   `None`, in which case the next candidate is tried.
   */
  function TryChoices(board: Board, dom: Domains, x: Cell, choices: seq<int>): (r: Outcome)
    requires WellFormed(board, dom) && board[x] == 0
    requires forall i | 0 <= i < |choices| :: 1 <= choices[i] <= 9
    ensures r.Found? ==> Completed(r.board) && Extends(board, r.board) && r.board[x] in choices
    decreases ZeroCount(board), 0, |choices|
  {
    if choices == [] then Exhausted
    else match Trial(choices[0], x, board, dom)
      case None => TryChoices(board, dom, x, choices[1..])
      case Some(next) =>
        TrialWellFormed(choices[0], x, board, dom);
        ZeroCountFill(board, x, choices[0]);
        var result := Search(next.board, next.dom);
        if result.Exhausted? then TryChoices(board, dom, x, choices[1..]) else result
  }

  /** backtracking: build the initial store, then search. */
  function Solve(board: Board): Outcome {
    InitDomainsWellFormed(board);
    Search(board, InitDomains(board))
  }

  // ---------------------------------------------------------------------
  // Soundness
  // ---------------------------------------------------------------------

  /** A complete board whose store agrees with it is a valid solution. */
  lemma CompletePropagatedValid(board: Board, dom: Domains)
    requires Completed(board) && Propagated(board, dom)
    ensures ValidSolution(board)
  {
    forall i, j | 0 <= i < 81 && 0 <= j < 81 && Peer(i, j) ensures board[i] != board[j] {
      assert dom[j] == [board[j]];
    }
  }

  /**
   From a healthy state the search never raises the KeyError, and a board
   it returns is a valid solution that keeps every fixed value.
   */
  lemma {:induction false} SearchSound(board: Board, dom: Domains)
    requires Healthy(board, dom)
    ensures Search(board, dom).Found? ==>
      ValidSolution(Search(board, dom).board) && Extends(board, Search(board, dom).board)
    ensures !Search(board, dom).MissingKey?
    decreases ZeroCount(board), 1, 0
  {
    if Completed(board) {
      CompletePropagatedValid(board, dom);
    } else {
      SelectFindsCell(dom, board);
      SelectUnassigned(dom, board);
      var x := Select(dom, board).value;
      TryChoicesSound(board, dom, x, dom[x]);
    }
  }

  lemma {:induction false} TryChoicesSound(board: Board, dom: Domains, x: Cell, choices: seq<int>)
    requires Healthy(board, dom) && board[x] == 0
    requires forall i | 0 <= i < |choices| :: 1 <= choices[i] <= 9
    ensures TryChoices(board, dom, x, choices).Found? ==>
      && ValidSolution(TryChoices(board, dom, x, choices).board)
      && Extends(board, TryChoices(board, dom, x, choices).board)
    ensures !TryChoices(board, dom, x, choices).MissingKey?
    decreases ZeroCount(board), 0, |choices|
  {
    if choices != [] {
      TryChoicesSound(board, dom, x, choices[1..]);
      var t := Trial(choices[0], x, board, dom);
      if t.Some? {
        TrialHealthy(choices[0], x, board, dom);
        ZeroCountFill(board, x, choices[0]);
        SearchSound(t.value.board, t.value.dom);
      }
    }
  }

  /**
   A list that is already empty stays empty, so every trial fails: the
   candidate loop ends with `None`.
   */
  lemma {:induction false} TryChoicesWithEmptyList(board: Board, dom: Domains, x: Cell, choices: seq<int>, k: Cell)
    requires WellFormed(board, dom) && board[x] == 0
    requires forall i | 0 <= i < |choices| :: 1 <= choices[i] <= 9
    requires k != x && dom[k] == []
    ensures TryChoices(board, dom, x, choices) == Exhausted
    decreases |choices|
  {
    if choices != [] {
      assert Reduce(dom[x := [choices[0]]], x, choices[0])[k] == [];
      TryChoicesWithEmptyList(board, dom, x, choices[1..], k);
    }
  }

  /** From an incomplete board with an empty list the search returns no board. */
  lemma SearchWithEmptyList(board: Board, dom: Domains)
    requires WellFormed(board, dom) && !AllNonEmpty(dom) && !Completed(board)
    ensures !Search(board, dom).Found?
  {
    var k :| 0 <= k < 81 && dom[k] == [];
    if Select(dom, board).Some? {
      SelectUnassigned(dom, board);
      TryChoicesWithEmptyList(board, dom, Select(dom, board).value, dom[Select(dom, board).value], k);
    }
  }

  // ---------------------------------------------------------------------
  // Completeness
  // ---------------------------------------------------------------------

  /** `b` is a valid solution extending `board` that every list still allows. */
  ghost predicate AllowedCompletion(board: Board, dom: Domains, b: Board) {
    ValidSolution(b) && Extends(board, b) && forall k | 0 <= k < 81 :: b[k] in dom[k]
  }

  /** The trial of the completion's own value succeeds and still allows the completion. */
  lemma TrialAllows(board: Board, dom: Domains, x: Cell, b: Board)
    requires Healthy(board, dom) && board[x] == 0 && AllowedCompletion(board, dom, b)
    ensures Trial(b[x], x, board, dom).Some?
    ensures AllowedCompletion(Trial(b[x], x, board, dom).value.board, Trial(b[x], x, board, dom).value.dom, b)
  {
    var d := Reduce(dom[x := [b[x]]], x, b[x]);
    forall k | 0 <= k < 81 ensures b[k] in d[k] {
      if Peer(x, k) {
        assert b[k] != b[x];
      }
    }
  }

  /**
   From a healthy state, if some valid completion is still allowed by
   every list, the search returns a board.
   */
  lemma {:induction false} SearchComplete(board: Board, dom: Domains, b: Board)
    requires Healthy(board, dom) && AllowedCompletion(board, dom, b)
    ensures Search(board, dom).Found?
    decreases ZeroCount(board), 1, 0
  {
    if !Completed(board) {
      SelectFindsCell(dom, board);
      SelectUnassigned(dom, board);
      var x := Select(dom, board).value;
      TryChoicesComplete(board, dom, x, dom[x], b);
    }
  }

  lemma {:induction false} TryChoicesComplete(board: Board, dom: Domains, x: Cell, choices: seq<int>, b: Board)
    requires Healthy(board, dom) && board[x] == 0 && AllowedCompletion(board, dom, b)
    requires forall i | 0 <= i < |choices| :: 1 <= choices[i] <= 9
    requires b[x] in choices
    ensures TryChoices(board, dom, x, choices).Found?
    decreases ZeroCount(board), 0, |choices|
  {
    var t := Trial(choices[0], x, board, dom);
    if choices[0] == b[x] {
      TrialAllows(board, dom, x, b);
      TrialHealthy(choices[0], x, board, dom);
      ZeroCountFill(board, x, choices[0]);
      SearchComplete(t.value.board, t.value.dom, b);
    } else {
      TryChoicesComplete(board, dom, x, choices[1..], b);
      if t.Some? {
        TrialHealthy(choices[0], x, board, dom);
        ZeroCountFill(board, x, choices[0]);
        SearchSound(t.value.board, t.value.dom);
      }
    }
  }

  /** A valid completion of the clues survives initialisation in every list. */
  lemma InitAllows(board: Board, b: Board)
    requires ValidSolution(b) && Extends(board, b)
    ensures AllowedCompletion(board, InitDomains(board), b)
  {
    PropagateCluesInvariant(board, 81);
    forall k | 0 <= k < 81 ensures b[k] in InitDomains(board)[k] {
      assert b[k] in Initial(board)[k];
    }
  }

  /**
   The solver as a whole. A returned board is complete and keeps every
   clue; it is a valid solution whenever initialisation left no empty
   list, which it does for every puzzle that has a solution; and the
   solver returns a board for every puzzle that has a valid completion.
   */
  lemma SolveCorrect(board: Board)
    ensures Solve(board).Found? ==> Completed(Solve(board).board) && Extends(board, Solve(board).board)
    ensures Solve(board).Found? && AllNonEmpty(InitDomains(board)) ==> ValidSolution(Solve(board).board)
    ensures !Completed(board) && !AllNonEmpty(InitDomains(board)) ==> !Solve(board).Found?
    ensures (exists b: Board :: ValidSolution(b) && Extends(board, b)) ==>
      && AllNonEmpty(InitDomains(board))
      && Solve(board).Found? && ValidSolution(Solve(board).board) && Extends(board, Solve(board).board)
  {
    InitDomainsWellFormed(board);
    var d := InitDomains(board);
    if AllNonEmpty(d) {
      SearchSound(board, d);
    } else if !Completed(board) {
      SearchWithEmptyList(board, d);
    }
    if b: Board :| ValidSolution(b) && Extends(board, b) {
      InitAllows(board, b);
      SearchComplete(board, d, b);
      SearchSound(board, d);
    }
  }
}
