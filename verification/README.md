# Crossword CSP solver and tic-tac-toe minimax, in Dafny

This project models two small search programs and proves what they compute.

- **Crossword generation** (`crossword/generate.py`) fills a crossword grid as
  a constraint-satisfaction problem:
  - the slots are the variables;
  - each slot's domain is the set of words it may still take;
  - crossing slots must agree on their shared letter, and no word may be used
    twice.

  The model covers:
  - node consistency (`enforce_node_consistency`);
  - the arc-consistency step `revise` and Mackworth's AC-3 (`ac3`);
  - the completeness and consistency tests of an assignment;
  - the least-constraining-value ordering and the minimum-remaining-values /
    degree choice of the next slot;
  - backtracking search interleaved with AC-3 (`backtrack`) and the top-level
    `solve`;
  - the letter picture of an assignment (`letter_grid`).
- **Tic-tac-toe** (`tictactoe/tictactoe.py`) models the 3 by 3 game:
  - whose turn it is, the legal moves and the effect of a move;
  - the winner, the end of the game and its utility;
  - the minimax values `maxValue` / `minValue` and the optimal move `minimax`.

Files:

- `wrappers.dfy` (`Wrappers`): `Option` and `Result`.
- `collections.dfy` (`Collections`): listing a set in an unspecified order,
  which is how the source iterates Python sets and dicts, and a stable sort
  by key (Python's `sorted`).
- `crossword_grid.dfy` (`Grid`): slots, the puzzle, overlaps, neighbours and
  the cell of a letter.
- `crossword_domains.dfy` (`Domains`): the domain store, node consistency and
  `revise`.
- `crossword_ac3.dfy` (`ArcConsistency`): the AC-3 work queue.
- `crossword_assignment.dfy` (`Assignments`): `assignment_complete` and
  `consistent`, both as intended and as written.
- `crossword_heuristics.dfy` (`Heuristics`): `order_domain_values` and
  `select_unassigned_variable`.
- `crossword_search.dfy` (`Search`): `backtrack` and `solve`.
- `crossword_letters.dfy` (`Letters`): `letter_grid`.
- `tictactoe_rules.dfy` (`TicTacToe`): the rules.
- `tictactoe_minimax.dfy` (`Minimax`): the game values and the optimal move.

Python's in-place mutation and `deepcopy` become value semantics: every
operation that changes the domain store takes a store and returns the new one.
Set and dict iteration order and `random.choice` become arbitrary choices
(`:|`), so every property is proved for every order the source might use.

Main results:

- `Search.Solve` returns only real solutions. It returns nothing only when the
  puzzle has no solution at all.
  - This rests on `Search.Backtrack`: a trial is abandoned only when no
    solution binds that value.
  - It also rests on `ArcConsistency.AC3` and `Domains.Revise`: they never
    prune a word that belongs to a solution.
- `Minimax.Minimax` returns a move for X that reaches `maxValue(board)`, the
  largest `minValue` over all moves. For O it returns a move that reaches
  `minValue(board)`, the smallest `maxValue` over all moves.

## Model

| member | source | states |
|---|---|---|
| `Domains.InitialDomains` | crossword/generate.py:15-18 | every slot of the puzzle starts with exactly the whole vocabulary |
| `Domains.EnforceNodeConsistency` | crossword/generate.py:98-109 | keeps every slot; afterwards every word has its slot's length; no word is added; every word of the right length stays |
| `Domains.EnforceNodeConsistencyIdempotent` | crossword/generate.py:98-109 | running the length filter twice gives the same store as running it once |
| `Domains.NodeConsistentIsFixedPoint` | crossword/generate.py:98-109 | a store in which every word already has its slot's length is left unchanged by the filter |
| `Domains.Revise` | crossword/generate.py:112-140 | keeps exactly those words of `x` that some word of `y` supports at the crossing; touches no other slot; changes nothing when the slots do not cross; returns True exactly when `x` was not arc-consistent with `y` and the domain shrank; afterwards `x` is arc-consistent with `y` |
| `Domains.ReviseIsIdleWhenArcConsistent` | crossword/generate.py:112-140 | on a store where every arc is consistent, every `revise` call returns False and changes nothing |
| `Domains.ReviseKeepsReverseArc` | crossword/generate.py:112-140 | revising `x` against `y` never breaks arc consistency of `y` with `x` |
| `Domains.RevisePreservesSolutions` | crossword/generate.py:112-140 | a word that belongs to a full agreeing assignment drawn from the store is never removed |
| `Domains.ReviseShrinksEntries` | crossword/generate.py:136-140 | when `revise` reports a revision, the store has strictly fewer (slot, word) pairs, so the AC-3 loop terminates |
| `Grid.NeighborsAreOverlaps` | crossword/generate.py:198-204 | `y` is a neighbour of `x` exactly when the pair has an overlap, and neighbourhood is symmetric |
| `Grid.CompatibleSymmetric` | crossword/generate.py:201-207 | agreement at a crossing does not depend on which slot is named first, so skipping a pair already checked in the other direction changes nothing |
| `ArcConsistency.AllArcs` | crossword/generate.py:155-158 | the default queue holds exactly the arcs `(x, y)` for a slot `x` and a neighbour `y` of `x` |
| `ArcConsistency.AllArcsQueued` | crossword/generate.py:155-158 | with every crossing arc queued, every arc that is not queued is consistent |
| `ArcConsistency.RevisionKeepsClosure` | crossword/generate.py:161-167 | after a real revision of `x` against `y`, the rest of the queue plus the re-queued arcs `(z, x)` for `z != y` covers every arc that may be inconsistent |
| `ArcConsistency.Requeue` | crossword/generate.py:165-167 | the appended arcs are exactly `(z, x)` for the neighbours `z` of `x` other than `y` |
| `ArcConsistency.Drain` | crossword/generate.py:160-169 | the loop only shrinks domains and never prunes a solution; it fails only after emptying a domain that was not empty; on success it empties none; when the start queue covered every inconsistent arc, success leaves every arc consistent |
| `ArcConsistency.AC3` | crossword/generate.py:143-169 | an empty or absent `arcs` seeds every arc; returns False exactly when a domain that was not empty has been emptied; domains only shrink; no solution is pruned; True with the full queue (or with a queue covering every inconsistent arc) means every arc is consistent |
| `Assignments.AssignmentComplete` | crossword/generate.py:172-182 | True exactly when every slot of the puzzle is bound |
| `Assignments.ConsistentBySlot` | crossword/generate.py:190-218 | checking the constraints slot by slot, as the loop does, decides the global consistency predicate |
| `Assignments.CheckNeighbors` | crossword/generate.py:197-207 | True exactly when every bound neighbour of the slot agrees with it at their crossing |
| `Assignments.CheckUnique` | crossword/generate.py:211-216 | True exactly when no other bound slot holds the same word |
| `Assignments.CheckConsistent` | crossword/generate.py:184-218 | True exactly when every bound word has its slot's length, bound crossing slots agree, and no word is used twice |
| `Assignments.CrossingsAsWritten` | crossword/generate.py:198-207 | the neighbour loop as written, in any neighbour order: it raises `IndexError` only when a bound neighbour's word is too short for the crossing; when it returns, True means every bound neighbour agrees with the slot at their crossing |
| `Assignments.CrossingsDecide` | crossword/generate.py:198-207 | when the as-written neighbour loop returns, its answer does not depend on the neighbour order: it is the crossing part of the slot's consistency |
| `Assignments.ConsistentAsWritten` | crossword/generate.py:184-218 | `consistent` as written, for any order of the slots and of each slot's neighbours: it raises `UnboundLocalError` only when some visited slot has no crossing, and `IndexError` only when some visited slot has a bound neighbour whose word is too short for their crossing |
| `Assignments.AsWrittenDecidesWhenItReturns` | crossword/generate.py:190-218 | whenever the code as written returns instead of raising, its answer is the consistency of the slots it visits |
| `Assignments.LoneSlotRaises` | crossword/generate.py:198-209 | a one-slot puzzle with a word of the right length is consistent, yet the code as written raises at the `checked.append` |
| `Assignments.ShortNeighborRaises` | crossword/generate.py:193-206 | two crossing slots, the second bound to the empty word and visited second: the assignment is inconsistent, yet the code as written raises `IndexError` rather than returning False |
| `Collections.SortBy` | crossword/generate.py:251 | the result is a permutation of the input, nondecreasing by the key |
| `Heuristics.Rank` | crossword/generate.py:235-249 | the count of a word is zero exactly when the word differs from, and agrees at the crossing with, every word left to every unassigned neighbour |
| `Heuristics.NothingRuledOut` | crossword/generate.py:235-249 | a word rules out no (neighbour, word) pair exactly when it differs from, and agrees at the crossing with, every word left to every unassigned neighbour |
| `Heuristics.OrderDomainValues` | crossword/generate.py:220-264 | lists every word of the slot's domain exactly once, ordered by the number of words it would rule out in unassigned neighbours' domains, least first |
| `Heuristics.SmallestDomains` | crossword/generate.py:284-294 | lists exactly the unassigned slots whose domain size is the minimum over all unassigned slots |
| `Heuristics.SelectUnassignedVariable` | crossword/generate.py:267-327 | returns an unassigned slot whose domain is as small as any unassigned slot's, and among those has the most unassigned neighbours |
| `Search.Narrow` | crossword/generate.py:366-367 | every bound slot's domain becomes just its word; every unbound slot keeps its domain; no slot is added or dropped |
| `Search.ArcsInto` | crossword/generate.py:365-374 | the arcs are exactly `(n, v)` for each bound slot `v` and each unbound neighbour `n` of `v` |
| `Search.Propagate` | crossword/generate.py:365-379 | narrowing bound slots to their words and running AC-3 keeps every solution consistent with the trial; False means a domain was emptied; unbound domains only shrink |
| `Search.InconsistentTrialExcluded` | crossword/generate.py:360 | a trial assignment that is not consistent belongs to no solution, so skipping it loses nothing |
| `Search.EmptiedTrialExcluded` | crossword/generate.py:379 | a trial after which AC-3 emptied a domain belongs to no solution |
| `Search.ExhaustedTrialExcluded` | crossword/generate.py:381-383 | a trial whose recursive search found nothing belongs to no solution |
| `Search.TryValue` | crossword/generate.py:349-387 | one trial: a result binds the slot to the tried value, binds every slot, extends the assignment, is consistent and takes new words from the domains; a failure restores the store snapshot and excludes the value |
| `Search.TryValues` | crossword/generate.py:349-389 | a result binds the slot to some listed value, every value listed before it being excluded, so it is the first successful trial; when none succeeds the store is unchanged and every value of the slot's domain is excluded |
| `Search.Backtrack` | crossword/generate.py:333-389 | a result is a complete assignment extending the given one, consistent when the given one is, with new words from the domains; no result means no solution extends the given assignment within the domains, and the store is left as it was |
| `Search.Solve` | crossword/generate.py:90-96 | a returned assignment binds every slot, meets every constraint and uses vocabulary words; no result means the puzzle has no solution |
| `Letters.PaintWord` | crossword/generate.py:29-33 | writes the letters of one word; fails exactly when one of its cells lies outside the grid |
| `Letters.LetterGrid` | crossword/generate.py:20-34 | fails exactly when some written cell lies outside the grid; otherwise a height by width picture whose blank cells are exactly the cells no word writes, each other cell holding a letter some word writes there |
| `Letters.SharedCellSameLetter` | crossword/generate.py:28-33 | when the overlaps match the grid geometry, two words of a consistent assignment that write the same cell write the same letter |
| `Letters.PictureAgreesWithEveryWord` | crossword/generate.py:20-34 | for a consistent assignment every cell a word writes shows that word's letter, whatever order the slots are written in |
| `TicTacToe.InitialState` | tictactoe/tictactoe.py:13-19 | the starting board holds no X and no O |
| `TicTacToe.InitialStateStart` | tictactoe/tictactoe.py:13-36 | the starting board offers all nine cells, X moves first, and the game is not over |
| `TicTacToe.Player` | tictactoe/tictactoe.py:22-36 | X moves when both marks have been placed equally often, O when X has one mark more |
| `TicTacToe.PlayerAlternates` | tictactoe/tictactoe.py:22-36 | on a board reached by alternate play, a move hands the turn to the other mark and keeps the counts balanced |
| `TicTacToe.Actions` | tictactoe/tictactoe.py:39-48 | the moves are exactly the empty on-board cells |
| `TicTacToe.Place` | tictactoe/tictactoe.py:59-61 | the moved-to cell holds the mark of the player to move, and every other cell is unchanged |
| `TicTacToe.ResultOf` | tictactoe/tictactoe.py:51-61 | an unavailable move is the error; otherwise the board with the mover's mark in that cell and every other cell unchanged |
| `TicTacToe.PlaceCells` | tictactoe/tictactoe.py:51-61 | a move removes exactly its cell from the moves, adds it to the mover's cells, and leaves the other mark's cells alone |
| `TicTacToe.Winner` | tictactoe/tictactoe.py:64-78 | has no contract of its own; `TicTacToe.WinnerFindsLine` states what its answer means |
| `TicTacToe.WinnerFindsLine` | tictactoe/tictactoe.py:64-78 | a returned winner holds a whole row, column or diagonal; there is no winner exactly when neither mark holds one |
| `TicTacToe.Terminal` | tictactoe/tictactoe.py:82-92 | has no contract of its own; `TicTacToe.TerminalMeansOver` states what its answer means |
| `TicTacToe.TerminalMeansOver` | tictactoe/tictactoe.py:82-92 | the game is over exactly when there is a winner or no move is left |
| `TicTacToe.Utility` | tictactoe/tictactoe.py:95-104 | the utility is 1, 0 or -1 |
| `TicTacToe.UtilityMeaning` | tictactoe/tictactoe.py:95-104 | utility 1 means X holds a line, -1 means O does, 0 exactly when neither does |
| `Minimax.MaxValue` | tictactoe/tictactoe.py:132-138 | the value X can force lies between -1 and 1 |
| `Minimax.MinValue` | tictactoe/tictactoe.py:140-146 | the value O can force lies between -1 and 1 |
| `Minimax.Scan` | tictactoe/tictactoe.py:132-146 | the running best stays between -1 and 1; from the start it always yields a value; it yields none only when no move is left from its position and nothing was found before |
| `Minimax.ValuesOfFinishedGame` | tictactoe/tictactoe.py:132-146 | on a finished board both values are the utility |
| `Minimax.ScanIsFold` | tictactoe/tictactoe.py:136-145 | the value loop is the running maximum (or minimum) over the opponent's values of the moves |
| `Minimax.FoldIsBest` | tictactoe/tictactoe.py:136-145 | the running maximum (minimum) ends at least as good as every value it visits and equal to one of them |
| `Minimax.MaxValueIsBestMove` | tictactoe/tictactoe.py:132-138 | while the game goes on, `maxValue` is at least the `minValue` after every move and equals it after some move |
| `Minimax.MinValueIsBestMove` | tictactoe/tictactoe.py:140-146 | while the game goes on, `minValue` is at most the `maxValue` after every move and equals it after some move |
| `Minimax.PickMove` | tictactoe/tictactoe.py:115-128 | the kept move is a listed move whose value is best for the player to move among all listed moves |
| `Minimax.Minimax` | tictactoe/tictactoe.py:107-129 | no move exactly when the game is over; otherwise an available move; for X one maximising `minValue` of the next board, equal to `maxValue(board)`; for O one minimising `maxValue`, equal to `minValue(board)` |

## Left out

- The terminal printer, the image writer (PIL) and `main`: output only.
  The same goes for `print_domains` and the debugging prints in
  `select_unassigned_variable`.
- The structure and word file parser and the `Variable` and `Crossword`
  classes in `crossword/crossword.py` are not part of this model.
  - Their output is the `Grid.Crossword` value, with the overlap relation
    described by `Grid.WellFormed`.
  - `Grid.CellsMatchOverlaps` states the geometry that relation comes from.
    Only `Letters.SharedCellSameLetter` and
    `Letters.PictureAgreesWithEveryWord` rely on it.
- `pagerank/` is not part of this model.
- Iteration order of Python sets and dicts, and `random.choice`: modelled as
  unspecified choices, so no result depends on a particular order.
- Mutation and `deepcopy`: modelled as values. The search takes a store and
  returns one, so restoring a snapshot is returning the old value.
- `Assignments.CheckNeighbors`: returns False where the source would raise
  `IndexError`, when a bound neighbour's word is too short for the crossing.
  The search only binds words from node-consistent domains, so this case does
  not arise there. The as-written behaviour is `Assignments.CrossingsAsWritten`.
- `Domains.Revise`: requires the two slots to be distinct. Every arc the
  source builds names two distinct slots, and an arc `(x, x)` has no overlap
  entry.
- `Domains.Revise`, `ArcConsistency.AC3`, `Search.Backtrack`,
  `Heuristics.OrderDomainValues`: require every word in the store to have its
  slot's length. Otherwise `revise` and the ranking loop of
  `order_domain_values` can index past the end of a word and raise
  `IndexError`. `solve` always runs the length filter first, and `backtrack`
  is the only caller of `order_domain_values`.
- `ArcConsistency.AC3`: requires a caller's queue to name slots of the puzzle.
  The source builds every queue from the puzzle's own slots.
- `Heuristics.SelectUnassignedVariable`: requires an unassigned slot to
  exist. Without one the source fails in `random.choice([])`, and `backtrack`
  only calls it on an incomplete assignment.
- `Search.Solve`, `Search.Backtrack`, `Search.TryValue`: each trial is checked
  with the corrected `Assignments.CheckConsistent`. The source's `consistent`
  raises `UnboundLocalError` when the first slot it visits has no crossing.
  The one-slot puzzle is an example: there the source raises where the model
  returns the solution.
- `TicTacToe.Winner`: carries no contract of its own. Its meaning is the
  contract of `TicTacToe.WinnerFindsLine`, which callers invoke where they
  need it.
- `TicTacToe.Terminal`: carries no contract of its own. Its meaning is the
  contract of `TicTacToe.TerminalMeansOver`, which callers invoke where they
  need it.
- `Letters.LetterGrid`: when two bound words write different letters into one
  cell, the picture holds the letter of one of them. It does not say which,
  because that depends on dict order. For a consistent assignment
  `Letters.PictureAgreesWithEveryWord` pins every cell exactly.
- The `IndexError` of `letter_grid` for a cell outside the grid is the
  `IndexOutOfGrid` failure. Cells never have negative coordinates, so Python's
  negative indexing plays no part.
- `Minimax.Minimax`: does not say which of several equally good moves is
  returned. In the source it is the first best one in set iteration order,
  which is unspecified.
- `Minimax.MaxValue`, `Minimax.MinValue`: the starting `-math.inf` /
  `math.inf` is an absent value. The moves are visited in row-major order
  rather than set order; a maximum or minimum does not depend on the order.
- Boards are exactly 3 by 3 grids of X, O and empty. The source indexes rows
  and columns 0 to 2, and its `winner` is specific to a 3 by 3 board.
- `utility`'s implicit fall-through (returning `None`) cannot happen, because
  `winner` returns X, O or `None`.

## Findings

| source | as written | input that shows it | evidently intended | confidence | as-written member | corrected member |
|---|---|---|---|---|---|---|
| crossword/generate.py:209 | `checked.append((var, neighbor))` runs after the neighbour loop, so it reads `neighbor` even when that loop bound nothing | a puzzle with one across slot of length 3 at (0, 0) and no crossings, with the assignment binding it to "CAT": the first slot visited has no neighbours, so `consistent` raises `UnboundLocalError` | `consistent` returns True: the word has the right length, there are no crossings and no duplicates | not executed | `Assignments.LoneSlotRaises` (about `Assignments.ConsistentAsWritten`) | `Assignments.CheckConsistent` |
| crossword/generate.py:206 | the neighbour's letter `assignment[neighbor][y_overlap_index]` is read before that neighbour's own length has been checked | two slots crossing at the last cell of an across slot of length 3 and the first cell of a down slot of length 3, the assignment binding the across slot to "CAT" and the down slot to "", the across slot visited first: the read past the end of "" raises `IndexError` | `consistent` returns False: the down slot's word has the wrong length | not executed | `Assignments.ShortNeighborRaises` (about `Assignments.ConsistentAsWritten`) | `Assignments.CheckConsistent` |
