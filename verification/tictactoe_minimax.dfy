/** Minimax search over the tic-tac-toe game tree: the value of a board for
    the maximising X and the minimising O, and the optimal move. */
module Minimax {
  import opened Wrappers
  import opened TicTacToe
  import Collections

  /** The cell with row-major index `k`. */
  function CellAt(k: int): (a: Action)
    requires 0 <= k < 9
    ensures OnBoard(a) && 3 * a.0 + a.1 == k
  {
    (k / 3, k % 3)
  }

  /** The row-major index of an on-board cell. */
  lemma IndexOfCell(a: Action)
    requires OnBoard(a)
    ensures 0 <= 3 * a.0 + a.1 < 9 && CellAt(3 * a.0 + a.1) == a
  {
  }

  lemma PlaceShrinks(b: Board, a: Action)
    requires a in Actions(b)
    ensures Actions(Place(b, a)) < Actions(b)
  {
    PlaceCells(b, a);
  }

  function Max(x: int, y: int): int { if x < y then y else x }

  function Min(x: int, y: int): int { if x < y then x else y }

  /** `best` absent stands for the starting value `-math.inf` (for a maximum)
      or `math.inf` (for a minimum). */
  predicate InRange(best: Option<int>) {
    best.None? || -1 <= best.value <= 1
  }

  /** A board on which the game goes on has an empty cell. */
  lemma OpenCell(b: Board)
    requires !Terminal(b)
    ensures exists k | 0 <= k < 9 :: CellAt(k) in Actions(b)
  {
    TerminalMeansOver(b);
    var a :| a in Actions(b);
    IndexOfCell(a);
  }

  /** `maxValue`: the utility of a finished game; otherwise the best value
      X can force, the largest `minValue` over the moves. */
  function MaxValue(b: Board): (r: int)
    ensures -1 <= r <= 1
  {
    Scan(b, true, -1, None).value
  }

  /** `minValue`: the utility of a finished game; otherwise the best value
      O can force, the smallest `maxValue` over the moves. */
  function MinValue(b: Board): (r: int)
    ensures -1 <= r <= 1
  {
    Scan(b, false, -1, None).value
  }

  /** Keeps the larger (`maximizing`) or the smaller of the value so far and
      `v`; an absent value so far is the starting infinity. */
  function Better(maximizing: bool, best: Option<int>, v: int): int {
    if best.None? then v
    else if maximizing then Max(best.value, v)
    else Min(best.value, v)
  }

  /** `maxValue` (`maximizing`) and `minValue` of `b` when `k` is -1: the
      utility of a finished game, else the loop over the moves. For `k` from
      0 to 9, the loop from the cell with row-major index `k` on, with the
      value found so far in `best`; each move is valued from the opponent's
      side, by `minValue` of the board after it for the maximiser and by
      `maxValue` for the minimiser. */
  function Scan(b: Board, maximizing: bool, k: int, best: Option<int>): (r: Option<int>)
    requires -1 <= k <= 9 && InRange(best)
    ensures InRange(r)
    ensures k == -1 ==> r.Some?
    ensures r.None? ==> best.None? && forall j | k <= j < 9 && 0 <= j :: CellAt(j) !in Actions(b)
    decreases Actions(b), 9 - k
  {
    if k == -1 then
      if Terminal(b) then Some(Utility(b))
      else
        OpenCell(b);
        Scan(b, maximizing, 0, None)
    else if k == 9 then best
    else if CellAt(k) in Actions(b) then
      PlaceShrinks(b, CellAt(k));
      var v := Scan(Place(b, CellAt(k)), !maximizing, -1, None).value;
      Scan(b, maximizing, k + 1, Some(Better(maximizing, best, v)))
    else Scan(b, maximizing, k + 1, best)
  }

  /** `maxValue` and `minValue` are the utility on a finished board. */
  lemma ValuesOfFinishedGame(b: Board)
    requires Terminal(b)
    ensures MaxValue(b) == Utility(b) && MinValue(b) == Utility(b)
  {
  }

  /** The value `Scan` gives a move is the opponent's value of the board
      after it. */
  lemma ScanStep(b: Board, maximizing: bool, k: int, best: Option<int>)
    requires 0 <= k < 9 && InRange(best) && CellAt(k) in Actions(b)
    ensures var c := Place(b, CellAt(k));
      Scan(b, maximizing, k, best) == Scan(b, maximizing, k + 1, Some(Better(maximizing, best, if maximizing then MinValue(c) else MaxValue(c))))
  {
  }

  /** `x` is at least as good as `y` for the maximiser (`maximizing`) or
      for the minimiser. */
  predicate AtLeastAsGood(maximizing: bool, x: int, y: int) {
    if maximizing then y <= x else x <= y
  }

  /** The value of every cell for the player to move, in row-major order:
      absent for a taken cell, otherwise the opponent's value of the board
      after the move. */
  ghost function MoveValues(b: Board, maximizing: bool): (r: seq<Option<int>>)
    ensures |r| == 9
    ensures forall j | 0 <= j < 9 :: r[j].None? <==> CellAt(j) !in Actions(b)
  {
    seq(9, j requires 0 <= j < 9 =>
      if CellAt(j) !in Actions(b) then None
      else if maximizing then Some(MinValue(Place(b, CellAt(j))))
      else Some(MaxValue(Place(b, CellAt(j)))))
  }

  /** The loop of `maxValue` and `minValue` over a list of move values from
      index `k` on, keeping the best one in `best`. */
  function Fold(vs: seq<Option<int>>, maximizing: bool, k: int, best: Option<int>): Option<int>
    requires 0 <= k <= |vs|
    decreases |vs| - k
  {
    if k == |vs| then best
    else if vs[k].None? then Fold(vs, maximizing, k + 1, best)
    else Fold(vs, maximizing, k + 1, Some(Better(maximizing, best, vs[k].value)))
  }

  /** The loop of the value functions is the fold over the move values. */
  lemma {:induction false} ScanIsFold(b: Board, maximizing: bool, k: int, best: Option<int>)
    requires 0 <= k <= 9 && InRange(best)
    ensures Scan(b, maximizing, k, best) == Fold(MoveValues(b, maximizing), maximizing, k, best)
    decreases 9 - k
  {
    if k < 9 {
      var vs := MoveValues(b, maximizing);
      if CellAt(k) in Actions(b) {
        ScanStep(b, maximizing, k, best);
        ScanIsFold(b, maximizing, k + 1, Some(Better(maximizing, best, vs[k].value)));
      } else {
        ScanIsFold(b, maximizing, k + 1, best);
      }
    }
  }

  /** The fold ends with a value at least as good as `best` and as every
      value it visits, and that value is `best` or one of those values. */
  lemma {:induction false} FoldIsBest(vs: seq<Option<int>>, maximizing: bool, k: int, best: Option<int>)
    requires 0 <= k <= |vs|
    ensures var r := Fold(vs, maximizing, k, best);
      && (best.Some? ==> r.Some? && AtLeastAsGood(maximizing, r.value, best.value))
      && (forall j | k <= j < |vs| && vs[j].Some? :: r.Some? && AtLeastAsGood(maximizing, r.value, vs[j].value))
      && (r.Some? ==> r == best || exists j | k <= j < |vs| && vs[j].Some? :: vs[j].value == r.value)
    decreases |vs| - k
  {
    if k < |vs| {
      if vs[k].None? {
        FoldIsBest(vs, maximizing, k + 1, best);
      } else {
        FoldIsBest(vs, maximizing, k + 1, Some(Better(maximizing, best, vs[k].value)));
      }
    }
  }

  /** On a board where the game goes on, the value for the player to move is
      the loop over the moves from the first cell. */
  lemma ValueOfOpenBoard(b: Board, maximizing: bool)
    requires !Terminal(b)
    ensures Scan(b, maximizing, -1, None) == Fold(MoveValues(b, maximizing), maximizing, 0, None)
  {
    ScanIsFold(b, maximizing, 0, None);
  }

  /** On a board where the game goes on, `maxValue` is the largest
      `minValue` over all available moves, and some move reaches it. */
  lemma MaxValueIsBestMove(b: Board)
    requires !Terminal(b)
    ensures forall a | a in Actions(b) :: MinValue(Place(b, a)) <= MaxValue(b)
    ensures exists a | a in Actions(b) :: MinValue(Place(b, a)) == MaxValue(b)
  {
    var vs := MoveValues(b, true);
    ValueOfOpenBoard(b, true);
    FoldIsBest(vs, true, 0, None);
    OpenCell(b);
    var k :| 0 <= k < 9 && CellAt(k) in Actions(b);
    assert vs[k].Some?;
    var j :| 0 <= j < 9 && vs[j].Some? && vs[j].value == MaxValue(b);
    assert CellAt(j) in Actions(b);
    forall a | a in Actions(b) ensures MinValue(Place(b, a)) <= MaxValue(b) {
      IndexOfCell(a);
      assert vs[3 * a.0 + a.1].Some?;
    }
  }

  /** On a board where the game goes on, `minValue` is the smallest
      `maxValue` over all available moves, and some move reaches it. */
  lemma MinValueIsBestMove(b: Board)
    requires !Terminal(b)
    ensures forall a | a in Actions(b) :: MinValue(b) <= MaxValue(Place(b, a))
    ensures exists a | a in Actions(b) :: MinValue(b) == MaxValue(Place(b, a))
  {
    var vs := MoveValues(b, false);
    ValueOfOpenBoard(b, false);
    FoldIsBest(vs, false, 0, None);
    OpenCell(b);
    var k :| 0 <= k < 9 && CellAt(k) in Actions(b);
    assert vs[k].Some?;
    var j :| 0 <= j < 9 && vs[j].Some? && vs[j].value == MinValue(b);
    assert CellAt(j) in Actions(b);
    forall a | a in Actions(b) ensures MinValue(b) <= MaxValue(Place(b, a)) {
      IndexOfCell(a);
      assert vs[3 * a.0 + a.1].Some?;
    }
  }

  /** One step of the loop of `minimax` for X: the running best still
      bounds every move seen, now including `acts[k]`. */
  lemma XStep(b: Board, acts: seq<Action>, k: int, opt: int, next: int)
    requires forall a | a in acts :: a in Actions(b)
    requires 0 <= k < |acts| && opt <= next && MinValue(Place(b, acts[k])) <= next
    requires forall t | 0 <= t < k :: MinValue(Place(b, acts[t])) <= opt
    ensures forall t | 0 <= t < k + 1 :: MinValue(Place(b, acts[t])) <= next
  {
  }

  /** One step of the loop of `minimax` for O. */
  lemma OStep(b: Board, acts: seq<Action>, k: int, opt: int, next: int)
    requires forall a | a in acts :: a in Actions(b)
    requires 0 <= k < |acts| && next <= opt && next <= MaxValue(Place(b, acts[k]))
    requires forall t | 0 <= t < k :: opt <= MaxValue(Place(b, acts[t]))
    ensures forall t | 0 <= t < k + 1 :: next <= MaxValue(Place(b, acts[t]))
  {
  }

  /** A move whose `minValue` is at least that of every listed move, when
      every move is listed, attains `maxValue`. */
  lemma XOptimal(b: Board, acts: seq<Action>, opt: Action)
    requires !Terminal(b) && opt in Actions(b) && forall a :: a in acts <==> a in Actions(b)
    requires forall t | 0 <= t < |acts| :: MinValue(Place(b, acts[t])) <= MinValue(Place(b, opt))
    ensures forall a | a in Actions(b) :: MinValue(Place(b, a)) <= MinValue(Place(b, opt))
    ensures MinValue(Place(b, opt)) == MaxValue(b)
  {
    forall a | a in Actions(b) ensures MinValue(Place(b, a)) <= MinValue(Place(b, opt)) {
      var t :| 0 <= t < |acts| && acts[t] == a;
    }
    MaxValueIsBestMove(b);
  }

  /** A move whose `maxValue` is at most that of every listed move, when
      every move is listed, attains `minValue`. */
  lemma OOptimal(b: Board, acts: seq<Action>, opt: Action)
    requires !Terminal(b) && opt in Actions(b) && forall a :: a in acts <==> a in Actions(b)
    requires forall t | 0 <= t < |acts| :: MaxValue(Place(b, opt)) <= MaxValue(Place(b, acts[t]))
    ensures forall a | a in Actions(b) :: MaxValue(Place(b, opt)) <= MaxValue(Place(b, a))
    ensures MaxValue(Place(b, opt)) == MinValue(b)
  {
    forall a | a in Actions(b) ensures MaxValue(Place(b, opt)) <= MaxValue(Place(b, a)) {
      var t :| 0 <= t < |acts| && acts[t] == a;
    }
    MinValueIsBestMove(b);
  }

  /** The loop of `minimax` over the listed moves `acts`: start from the
      first and switch only to a strictly better one for the player to move,
      so the pick is a best listed move for that player. */
  method PickMove(b: Board, acts: seq<Action>) returns (optimal: Action)
    requires |acts| > 0 && forall a | a in acts :: a in Actions(b)
    ensures optimal in acts
    ensures Player(b) == X ==>
      forall t | 0 <= t < |acts| :: MinValue(Place(b, acts[t])) <= MinValue(Place(b, optimal))
    ensures Player(b) == O ==>
      forall t | 0 <= t < |acts| :: MaxValue(Place(b, optimal)) <= MaxValue(Place(b, acts[t]))
  {
    optimal := acts[0];
    var optMin := MinValue(Place(b, optimal));
    var optMax := MaxValue(Place(b, optimal));
    var mover := Player(b);
    var k := 0;
    while k < |acts|
      invariant 0 <= k <= |acts|
      invariant optimal in acts
      invariant mover == X ==> optMin == MinValue(Place(b, optimal))
      invariant mover == O ==> optMax == MaxValue(Place(b, optimal))
      invariant mover == X ==> forall t | 0 <= t < k :: MinValue(Place(b, acts[t])) <= optMin
      invariant mover == O ==> forall t | 0 <= t < k :: optMax <= MaxValue(Place(b, acts[t]))
    {
      var action := acts[k];
      if mover == X {
        var actionMin := MinValue(Place(b, action));
        var next := if actionMin > optMin then actionMin else optMin;
        XStep(b, acts, k, optMin, next);
        if actionMin > optMin {
          optimal := action;
          optMin := actionMin;
        }
      }
      if mover == O {
        var actionMax := MaxValue(Place(b, action));
        var next := if actionMax < optMax then actionMax else optMax;
        OStep(b, acts, k, optMax, next);
        if actionMax < optMax {
          optimal := action;
          optMax := actionMax;
        }
      }
      k := k + 1;
    }
  }

  /** `minimax`: no move on a finished board; otherwise the first listed
      move, replaced by any later one that is strictly better for the player
      to move. X's move attains `maxValue(board)`, the largest `minValue`
      over all moves; O's attains `minValue(board)`, the smallest
      `maxValue`. */
  method Minimax(b: Board) returns (r: Option<Action>)
    ensures r.None? <==> Terminal(b)
    ensures r.Some? ==> r.value in Actions(b)
    ensures r.Some? && Player(b) == X ==>
      forall a | a in Actions(b) :: MinValue(Place(b, a)) <= MinValue(Place(b, r.value))
    ensures r.Some? && Player(b) == O ==>
      forall a | a in Actions(b) :: MaxValue(Place(b, r.value)) <= MaxValue(Place(b, a))
    ensures r.Some? && Player(b) == X ==> MinValue(Place(b, r.value)) == MaxValue(b)
    ensures r.Some? && Player(b) == O ==> MaxValue(Place(b, r.value)) == MinValue(b)
  {
    if Terminal(b) {
      return None;
    }
    TerminalMeansOver(b);
    var acts := Collections.SetToSeq(Actions(b));
    var some :| some in Actions(b);
    assert some in acts;
    var optimal := PickMove(b, acts);
    if Player(b) == X {
      XOptimal(b, acts, optimal);
    } else {
      OOptimal(b, acts, optimal);
    }
    return Some(optimal);
  }
}
