/** The rules of tic-tac-toe on a 3 by 3 board: whose turn it is, the legal
    moves, the effect of a move, the winner and the end of the game. */
module TicTacToe {
  import opened Wrappers

  datatype Mark = X | O

  /** A cell holds a mark or is empty (`None`). */
  type Cell = Option<Mark>

  type Board = b: seq<seq<Cell>> | |b| == 3 && forall i | 0 <= i < 3 :: |b[i]| == 3
    witness [[None, None, None], [None, None, None], [None, None, None]]

  /** A move: the row and the column of the cell to mark. */
  type Action = (int, int)

  /** Raised by `result` for a move that is not available. */
  datatype GameError = NotAValidAction

  predicate OnBoard(a: Action) {
    0 <= a.0 < 3 && 0 <= a.1 < 3
  }

  /** The cells of `b` holding `c`. */
  function Cells(b: Board, c: Cell): (r: set<Action>)
    ensures forall a :: a in r <==> OnBoard(a) && b[a.0][a.1] == c
  {
    set i, j | 0 <= i < 3 && 0 <= j < 3 && b[i][j] == c :: (i, j)
  }

  /** `initial_state`: the empty board. */
  function InitialState(): (r: Board)
    ensures Cells(r, Some(X)) == {} && Cells(r, Some(O)) == {}
  {
    [[None, None, None], [None, None, None], [None, None, None]]
  }

  /** `player`: O moves when it has placed fewer marks than X, and X moves
      otherwise. In alternate play, X moves when the counts are equal and O
      when X has one mark more. */
  function Player(b: Board): (r: Mark)
    ensures |Cells(b, Some(X))| == |Cells(b, Some(O))| ==> r == X
    ensures |Cells(b, Some(X))| == |Cells(b, Some(O))| + 1 ==> r == O
  {
    if |Cells(b, Some(O))| < |Cells(b, Some(X))| then O else X
  }

  /** `actions`: the empty cells. */
  function Actions(b: Board): (r: set<Action>)
    ensures forall a :: a in r <==> OnBoard(a) && b[a.0][a.1].None?
  {
    Cells(b, None)
  }

  /** The board after the player to move marks the empty cell `a`. */
  function Place(b: Board, a: Action): (r: Board)
    requires a in Actions(b)
    ensures r[a.0][a.1] == Some(Player(b))
    ensures forall c | OnBoard(c) && c != a :: r[c.0][c.1] == b[c.0][c.1]
  {
    b[a.0 := b[a.0][a.1 := Some(Player(b))]]
  }

  /** `result`: a move that is not available is an error; otherwise the
      board after it. */
  function ResultOf(b: Board, a: Action): (r: Result<Board, GameError>)
    ensures r.Failure? <==> a !in Actions(b)
    ensures r.Success? ==> r.value == Place(b, a)
  {
    if a !in Actions(b) then Failure(NotAValidAction) else Success(Place(b, a))
  }

  /** A move empties nothing, fills exactly its own cell with the mover's
      mark, and leaves the other mark's cells alone. */
  lemma PlaceCells(b: Board, a: Action)
    requires a in Actions(b)
    ensures Actions(Place(b, a)) == Actions(b) - {a}
    ensures Cells(Place(b, a), Some(Player(b))) == Cells(b, Some(Player(b))) + {a}
    ensures forall m | m != Player(b) :: Cells(Place(b, a), Some(m)) == Cells(b, Some(m))
    ensures |Actions(Place(b, a))| == |Actions(b)| - 1
  {
    var r := Place(b, a);
    assert Actions(r) == Actions(b) - {a};
  }

  /** The eight lines, independently of the order `winner` checks them in:
      rows, then columns, then the two diagonals. */
  const Lines: seq<seq<Action>> := [
    [(0, 0), (0, 1), (0, 2)], [(1, 0), (1, 1), (1, 2)], [(2, 0), (2, 1), (2, 2)],
    [(0, 0), (1, 0), (2, 0)], [(0, 1), (1, 1), (2, 1)], [(0, 2), (1, 2), (2, 2)],
    [(0, 0), (1, 1), (2, 2)], [(0, 2), (1, 1), (2, 0)]]

  predicate Holds(b: Board, c: Action, m: Mark) {
    OnBoard(c) && b[c.0][c.1] == Some(m)
  }

  /** `m` holds all three cells of line `k`. */
  predicate LineWon(b: Board, k: int, m: Mark)
    requires 0 <= k < |Lines|
  {
    Holds(b, Lines[k][0], m) && Holds(b, Lines[k][1], m) && Holds(b, Lines[k][2], m)
  }

  /** `m` holds all three cells of some line. */
  predicate Won(b: Board, m: Mark) {
    exists k | 0 <= k < |Lines| :: LineWon(b, k, m)
  }

  /** The Python chained test `p == q == s != EMPTY`. */
  predicate Three(p: Cell, q: Cell, s: Cell) {
    p == q && q == s && s != None
  }

  /** `winner`: the loop over `i` checks column `i` and then row `i`; the
      main diagonal and the anti-diagonal come after it. The first full line
      found decides. */
  function Winner(b: Board): Option<Mark> {
    if Three(b[0][0], b[1][0], b[2][0]) then b[0][0]
      else if Three(b[0][0], b[0][1], b[0][2]) then b[0][0]
      else if Three(b[0][1], b[1][1], b[2][1]) then b[0][1]
      else if Three(b[1][0], b[1][1], b[1][2]) then b[1][0]
      else if Three(b[0][2], b[1][2], b[2][2]) then b[0][2]
      else if Three(b[2][0], b[2][1], b[2][2]) then b[2][0]
      else if Three(b[0][0], b[1][1], b[2][2]) then b[0][0]
      else if Three(b[0][2], b[1][1], b[2][0]) then b[0][2]
    else None
  }

  lemma SomeoneWon(b: Board, k: int, m: Mark)
    requires 0 <= k < |Lines| && LineWon(b, k, m)
    ensures Won(b, m) && (Won(b, X) || Won(b, O))
  {
    if m == X {
      assert Won(b, X);
    } else {
      assert Won(b, O);
    }
  }

  /** A mark `winner` returns holds a whole line, and there is no winner
      exactly when neither mark holds one. */
  lemma WinnerFindsLine(b: Board)
    ensures Winner(b).Some? ==> Won(b, Winner(b).value)
    ensures Winner(b).None? <==> !Won(b, X) && !Won(b, O)
  {
    if Three(b[0][0], b[1][0], b[2][0]) {
      SomeoneWon(b, 3, Winner(b).value);
    } else if Three(b[0][0], b[0][1], b[0][2]) {
      SomeoneWon(b, 0, Winner(b).value);
    } else if Three(b[0][1], b[1][1], b[2][1]) {
      SomeoneWon(b, 4, Winner(b).value);
    } else if Three(b[1][0], b[1][1], b[1][2]) {
      SomeoneWon(b, 1, Winner(b).value);
    } else if Three(b[0][2], b[1][2], b[2][2]) {
      SomeoneWon(b, 5, Winner(b).value);
    } else if Three(b[2][0], b[2][1], b[2][2]) {
      SomeoneWon(b, 2, Winner(b).value);
    } else if Three(b[0][0], b[1][1], b[2][2]) {
      SomeoneWon(b, 6, Winner(b).value);
    } else if Three(b[0][2], b[1][1], b[2][0]) {
      SomeoneWon(b, 7, Winner(b).value);
    } else {
      forall m, k | 0 <= k < |Lines| ensures !LineWon(b, k, m) {
        if k == 0 { assert Lines[k] == [(0, 0), (0, 1), (0, 2)]; }
        else if k == 1 { assert Lines[k] == [(1, 0), (1, 1), (1, 2)]; }
        else if k == 2 { assert Lines[k] == [(2, 0), (2, 1), (2, 2)]; }
        else if k == 3 { assert Lines[k] == [(0, 0), (1, 0), (2, 0)]; }
        else if k == 4 { assert Lines[k] == [(0, 1), (1, 1), (2, 1)]; }
        else if k == 5 { assert Lines[k] == [(0, 2), (1, 2), (2, 2)]; }
        else if k == 6 { assert Lines[k] == [(0, 0), (1, 1), (2, 2)]; }
        else { assert Lines[k] == [(0, 2), (1, 1), (2, 0)]; }
      }
    }
  }

  /** `terminal`: the game is over when someone has won or no cell is empty. */
  function Terminal(b: Board): bool {
    if Winner(b).Some? then true
    else forall i, j | 0 <= i < 3 && 0 <= j < 3 :: b[i][j].Some?
  }

  /** The game is over exactly when there is a winner or no move is left. */
  lemma TerminalMeansOver(b: Board)
    ensures Terminal(b) <==> Winner(b).Some? || Actions(b) == {}
  {
    if !Terminal(b) {
      var i, j :| 0 <= i < 3 && 0 <= j < 3 && b[i][j].None?;
      assert (i, j) in Actions(b);
    }
  }

  /** `utility`: 1 when X has won, -1 when O has, 0 otherwise. */
  function Utility(b: Board): (r: int)
    ensures -1 <= r <= 1
  {
    match Winner(b)
    case Some(X) => 1
    case Some(O) => -1
    case None => 0
  }

  /** The utility is 1 only when X holds a line, -1 only when O does, and 0
      exactly when neither does. */
  lemma UtilityMeaning(b: Board)
    ensures Utility(b) == 1 ==> Won(b, X)
    ensures Utility(b) == -1 ==> Won(b, O)
    ensures Utility(b) == 0 <==> !Won(b, X) && !Won(b, O)
  {
    WinnerFindsLine(b);
  }

  lemma NineCells()
    ensures |{(0, 0), (0, 1), (0, 2), (1, 0), (1, 1), (1, 2), (2, 0), (2, 1), (2, 2)}| == 9
  {
  }

  /** The empty board offers all nine cells, and X moves first. */
  lemma InitialStateStart()
    ensures |Actions(InitialState())| == 9
    ensures Player(InitialState()) == X
    ensures !Terminal(InitialState())
  {
    var b := InitialState();
    var all := {(0, 0), (0, 1), (0, 2), (1, 0), (1, 1), (1, 2), (2, 0), (2, 1), (2, 2)};
    NineCells();
    assert Actions(b) == all;
    TerminalMeansOver(b);
  }

  /** On a board reached by alternate play (as many Xs as Os, or one more X),
      a move keeps the counts balanced and hands the turn to the other mark. */
  lemma PlayerAlternates(b: Board, a: Action)
    requires a in Actions(b)
    requires |Cells(b, Some(X))| == |Cells(b, Some(O))| || |Cells(b, Some(X))| == |Cells(b, Some(O))| + 1
    ensures Player(Place(b, a)) != Player(b)
    ensures var r := Place(b, a);
      |Cells(r, Some(X))| == |Cells(r, Some(O))| || |Cells(r, Some(X))| == |Cells(r, Some(O))| + 1
  {
    PlaceCells(b, a);
    assert a !in Cells(b, Some(Player(b)));
  }
}
