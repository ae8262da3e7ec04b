# Sudoku backtracking solver, modelled in Dafny

`sudoku.py` solves 9x9 Sudoku puzzles. A board maps the 81 squares `A1`..`I9`
(rows `A`..`I`, columns `1`..`9`) to a digit, with 0 for a blank square.
The solver keeps a *domain store*: one list of remaining candidates per
square. Solving has three phases:

- **Initialisation.** Every blank square starts with `[1..9]` and every clue
  with `[clue]`. Forward checking (`reduce_domain`) then runs once for every
  clue, in row-major order.
- **Search.** `backtracking_helper` picks a square by the
  minimum-remaining-values rule (`select_variable`) and tries its candidates
  in list order. Each trial (`value_consistent`) works on copies of the board
  and the store. It fixes the square, prunes the square's row, column and box,
  and rejects the choice if any list becomes empty. The search succeeds when
  no square holds 0.
- **Text form.** A board is read from the first 81 characters of a line and
  written back as 81 digits.

The model uses these representations:

- **Squares.** A square is a cell index `0..80` in row-major order: `A1` is 0
  and `I9` is 80. Row is `c / 9` and column is `c % 9`.
- **Board.** A board is a `seq<CellValue>` of length 81.
- **Store.** The store is a `seq<seq<int>>` of length 81. In the imperative
  methods it is an `array<seq<int>>` that `reduce_domain` updates in place,
  the way the source mutates its dictionary of lists.
- **Outcomes.** The search ends in `Found(board)`, `Exhausted` (the
  source's `None`) or `MissingKey`. `MissingKey` is the `KeyError` that
  `dom_dict[""]` raises when `select_variable` finds no square.

The modules follow the program's structure:

- `Grid`: cells and peers, complete and valid boards, and the row, column and
  box groups.
- `CandidateLists`: candidate lists, Python's `list.remove`, and the filter
  that specifies removal.
- `DomainStore`: the forward-checking rule as a function (`Reduce`) and as the
  source's in-place loops (`ReduceDomain`), plus the initial store.
- `SearchSpec`: the trial, the selection and the search as functions, with
  soundness and completeness of the solver.
- `SearchEngine`: the source's loops and recursion as methods. Each is proved
  to compute the `SearchSpec` function it implements.
- `BoardText`: the writer and the reader of the 81-character form.
- `CheckedSolver`: the two inputs on which the solver misbehaves, and the
  corrected solver.

## Model

| member | source | states |
|---|---|---|
| Grid.ZeroCount | sudoku.py:95-99 | counts the blank cells; it is 0 exactly when no cell holds 0 |
| Grid.ZeroCountFill | sudoku.py:72 | fixing a blank cell to a digit leaves one blank cell fewer, so every recursive search call is on a board with fewer blanks |
| Grid.ValidSolutionGroups | sudoku.py:52-54 | on a valid solution every row, column and box holds exactly the digits 1..9 |
| CandidateLists.Without | sudoku.py:124-125 | removing `v` keeps exactly the other members, never grows the list, and keeps it free of repeats |
| CandidateLists.RemoveFirst | sudoku.py:124-125 | `list.remove` on a present value shortens the list by one and takes exactly one copy of the value out of its multiset of elements; the membership guards at lines 124 and 132 make the absent case unreachable, and there the model returns the list unchanged where Python would raise `ValueError` |
| CandidateLists.RemoveFirstOccurrence | sudoku.py:125 | the element `list.remove` takes out is the first occurrence of the value, and the elements before and after it stay in order |
| CandidateLists.RemoveFirstLeavesRepeat | sudoku.py:125 | on a list holding the value twice, one `list.remove` leaves a copy behind, so it equals removing every copy only on lists without repeats |
| CandidateLists.RemoveFirstDistinct | sudoku.py:124-125 | on a list without repeats, `list.remove` removes the value entirely |
| CandidateLists.WithoutAbsent | sudoku.py:124 | removing a value that is not listed changes nothing |
| CandidateLists.WithoutIdempotent | sudoku.py:132-133 | removing the same value twice equals removing it once |
| CandidateLists.WithoutCandidateList | sudoku.py:124-125 | removal keeps a list ascending and within 1..9 |
| CandidateLists.CandidateListDistinct | sudoku.py:42 | an ascending list of digits has no repeats |
| CandidateLists.CandidateListShort | sudoku.py:82-88 | a candidate list has at most 9 entries, so the starting minimum 10 exceeds every length |
| CandidateLists.NoDigitEmpty | sudoku.py:75-77 | a candidate list is empty exactly when it holds none of 1..9 |
| CandidateLists.AllDigitsCandidateList | sudoku.py:42 | the list `[1..9]` given to a blank square is a candidate list |
| DomainStore.Reduce | sudoku.py:109-134 | forward checking keeps the fixed cell's list, removes the value from every row, column and box peer, and changes nothing else; no list grows |
| DomainStore.ReduceAbsent | sudoku.py:124-125 | a peer whose list lacks the value is untouched |
| DomainStore.ReduceIdempotent | sudoku.py:109-134 | reducing twice from the same fixed cell gives the store of reducing once |
| DomainStore.ReduceCandidateLists | sudoku.py:109-134 | reduction keeps every list a candidate list |
| DomainStore.PropagateCluesInvariant | sudoku.py:39-47 | after the first n clues are propagated, a digit stays in a list exactly when it was there initially and no clue among those n cells that is a peer holds it; a clue's list is its value or empty |
| DomainStore.InitDomainsWellFormed | sudoku.py:37-47 | the initial store is well formed, and it agrees with the clues whenever no list came out empty |
| DomainStore.RemoveFrom | sudoku.py:124-125 | the guarded `remove` on one square removes the value from that list unless it is the fixed square; nothing else changes |
| DomainStore.ClearBlock | sudoku.py:129-133 | the loops over one box remove the value from every other cell of that box and touch nothing else |
| DomainStore.BoxPass | sudoku.py:126-133 | the search over the three row groups and three column groups clears exactly the box of the fixed square |
| DomainStore.ReduceDomain | sudoku.py:109-134 | the in-place `reduce_domain` leaves the store equal to `Reduce` of the old store, for duplicate-free lists |
| SearchSpec.Trial | sudoku.py:69-78 | a choice is rejected exactly when pruning leaves some list empty; otherwise the new board has the choice at the square, the square's list is `[choice]`, every list is non-empty, no peer lists the choice, and other cells keep their values |
| SearchSpec.TrialWellFormed | sudoku.py:69-78 | an accepted trial keeps the store well formed |
| SearchSpec.TrialHealthy | sudoku.py:69-78 | an accepted trial on a blank square keeps the store consistent with the board (fixed cells determined, no peer conflict, no empty list) |
| SearchSpec.SelectFoldChosen | sudoku.py:81-92 | after n squares, the running pick is the first square of minimum list length among blank squares with one candidate and squares with 2..9 candidates |
| SearchSpec.SelectChoice | sudoku.py:81-92 | a blank square with a single candidate is picked over any longer list; otherwise the first shortest list of length 2..9 is picked; no square is picked exactly when neither kind exists |
| SearchSpec.SelectUnassigned | sudoku.py:56-58 | in a well-formed store the picked square is blank |
| SearchSpec.SelectFindsCell | sudoku.py:56-58 | when no list is empty and the board is not complete, some square is picked |
| SearchSpec.Search | sudoku.py:52-66 | a complete board is returned unchanged; any board returned is complete and keeps every clue |
| SearchSpec.TryChoices | sudoku.py:58-66 | a board found by trying a list of choices is complete, keeps the clues, and gives the square one of those choices |
| SearchSpec.CompletePropagatedValid | sudoku.py:53-54 | a complete board whose store agrees with it has no two equal peers |
| SearchSpec.SearchSound | sudoku.py:52-66 | from a consistent store, every board found is a valid solution extending the start, and the search never raises the `KeyError` |
| SearchSpec.TryChoicesSound | sudoku.py:58-66 | the same soundness for the candidate loop |
| SearchSpec.TryChoicesWithEmptyList | sudoku.py:58-66 | when another square's list is empty, every trial is rejected and the loop ends in `None` |
| SearchSpec.SearchWithEmptyList | sudoku.py:52-66 | an incomplete board with an empty list is never solved |
| SearchSpec.TrialAllows | sudoku.py:69-78 | the trial of a valid completion's digit is accepted, and the completion stays allowed by the new store |
| SearchSpec.SearchComplete | sudoku.py:52-66 | from a consistent store that allows a valid completion, the search finds a board |
| SearchSpec.TryChoicesComplete | sudoku.py:58-66 | the candidate loop finds a board when its choices include the completion's digit |
| SearchSpec.InitAllows | sudoku.py:37-47 | initialisation keeps every digit of every valid completion of the clues |
| SearchSpec.SolveCorrect | sudoku.py:37-49 | the result is complete and keeps the clues; it is a valid solution whenever initialisation left no empty list; an incomplete puzzle with an empty list is never solved; and when a valid completion exists, a valid one is returned |
| SearchEngine.BoardCompleted | sudoku.py:95-99 | true exactly when no cell holds 0 |
| SearchEngine.DomainDone | sudoku.py:102-106 | true exactly when every list has at most one candidate |
| SearchEngine.CompletedDetermined | sudoku.py:102-106 | a well-formed store of a complete board is fully determined |
| SearchEngine.ValueConsistent | sudoku.py:69-78 | the trial on fresh copies returns exactly `SearchSpec.Trial` |
| SearchEngine.SelectVariable | sudoku.py:81-92 | the selection loop returns exactly `SearchSpec.Select`, including no square (the empty name) |
| SearchEngine.BacktrackingHelper | sudoku.py:52-66 | the recursive search with its candidate loop returns exactly `SearchSpec.Search` |
| SearchEngine.InitialStore | sudoku.py:39-47 | filling and propagating the fresh store yields exactly `DomainStore.InitDomains` |
| SearchEngine.Backtracking | sudoku.py:37-49 | returns exactly `SearchSpec.Solve`, so `SolveCorrect` holds of it |
| BoardText.DigitChar | sudoku.py:33 | `str` of a digit is a digit character with that value |
| BoardText.CharDigit | sudoku.py:143 | `int` of a digit character is the digit whose `str` is that character |
| BoardText.BoardToString | sudoku.py:28-34 | the nested loops produce the 81 digits of the board in row-major order |
| BoardText.FirstBad | sudoku.py:143-144 | finds the first index below 81 that is past the end of the line or not a digit; every earlier index is a digit |
| BoardText.ParseSerialize | sudoku.py:28-34 | reading what was written gives back the board |
| BoardText.SerializeParse | sudoku.py:143-144 | writing what was read gives the first 81 characters of the line |
| BoardText.ParseOutcome | sudoku.py:143-144 | a line is read exactly when its first 81 characters are digits; a short line fails with an `IndexError` at its end, and any other failure is a `ValueError` at the first non-digit |
| CheckedSolver.CompleteBoardReturned | sudoku.py:53-54 | a board without blanks is returned as it is, whatever its clues |
| CheckedSolver.InvalidCompleteBoardReturned | sudoku.py:53-54 | a board of 81 ones is returned as solved although it is not a valid solution |
| CheckedSolver.NoCandidateRaises | sudoku.py:56-58 | when the clues leave every blank cell without a candidate, the search ends in the `KeyError` |
| CheckedSolver.DeadEndRaises | sudoku.py:56-58 | a concrete board (row A holds 1..8 with A9 blank, every other cell holds 9) ends in the `KeyError` |
| CheckedSolver.SolveChecked | sudoku.py:37-49 | the corrected solver returns only valid solutions that keep the clues, never raises, and finds a board exactly when a valid completion exists |
| CheckedSolver.BacktrackingChecked | sudoku.py:37-49 | the corrected imperative solver returns exactly `SolveChecked` |

## Left out

- `print_board` and the command-line driver (`__main__`) are not modelled: argument handling, file reading and writing, comparison with the expected solutions, and timing statistics are I/O and clocks.
- The reader accepts only the ASCII digits `0`..`9`. Python's `int` also accepts other Unicode decimal digits and surrounding whitespace, but a one-character board cell never holds whitespace.
- `copy.deepcopy` is modelled by value semantics: boards and stores are sequences, and `ValueConsistent` copies the caller's store into a fresh array.
- Dictionary iteration order is insertion order, which the board comprehension makes row-major. The model fixes that order as cell indices 0..80.
- Comparing square names by their row letter and column digit is modelled as comparing `c / 9` and `c % 9` of the cell index.
- DomainStore.ReduceDomain: requires every list to be free of repeats, because `list.remove` drops only the first occurrence (`CandidateLists.RemoveFirstLeavesRepeat`); every list the solver builds has no repeats.
- CandidateLists.RemoveFirst: returns the list unchanged for an absent value, where Python raises `ValueError`; the solver tests membership before every call (lines 124 and 132), so the case never arises.
- SearchSpec.Search: requires a well-formed store (candidate lists, fixed cells with at most one candidate). `backtracking` always establishes it, and termination depends on it, because it makes every selected square blank.
- Python's recursion limit is not modelled. The search depth is at most 81.
- Whether a solution is unique is not claimed; the solver returns the first completion in candidate order.

## Findings

| source | as written | input that shows it | evidently intended | confidence | as-written member | corrected member |
|---|---|---|---|---|---|---|
| sudoku.py:45-54 | a board with no blank square is returned at once, even when its clues clash and propagation left an empty list | a board of 81 ones | report no solution (`None`) for clashing clues | not executed | CheckedSolver.InvalidCompleteBoardReturned | CheckedSolver.SolveChecked |
| sudoku.py:56-58 | when every blank square's list is empty, `select_variable` returns `""` and `dom_dict[""]` raises `KeyError` | row A holds 1..8 with A9 blank, every other square holds 9 | report no solution (`None`) | not executed | CheckedSolver.DeadEndRaises | CheckedSolver.SolveChecked |

`CheckedSolver.BacktrackingChecked` is the corrected solver in imperative form. It builds the initial store with `SearchEngine.InitialStore`, returns no solution when some list is empty, and otherwise runs `SearchEngine.BacktrackingHelper`.
