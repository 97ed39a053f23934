/** The puzzle geometry the solver reads: slots ("variables"), the vocabulary
    and the overlap relation between crossing slots. The structure-file parser
    that builds it is not part of this model; its output is described by
    `WellFormed`. */
module Grid {
  import opened Wrappers

  datatype Direction = Across | Down

  /** A slot: the row `i` and column `j` of its first cell, its orientation and
      its length. Two slots are equal when all four attributes are. */
  datatype Variable = Variable(i: nat, j: nat, direction: Direction, length: nat)

  type Word = string

  /** An ordered pair of slots; in a work queue, "revise the first against the second". */
  type Arc = (Variable, Variable)

  /** Slot -> chosen word, partial during the search. */
  type Assignment = map<Variable, Word>

  /** `overlaps` holds an entry for each ordered pair of slots that cross:
      the position of the shared cell within the first slot and within the
      second. Pairs that do not cross have no entry. */
  datatype Crossword = Crossword(
    height: nat,
    width: nat,
    variables: set<Variable>,
    words: set<Word>,
    overlaps: map<Arc, (nat, nat)>)

  /** The overlap relation is between distinct slots of the puzzle, symmetric
      with the indices swapped, and every index lies inside its slot. */
  ghost predicate WellFormed(cw: Crossword) {
    && (forall x, y | (x, y) in cw.overlaps :: x in cw.variables && y in cw.variables && x != y)
    && (forall x, y | (x, y) in cw.overlaps ::
          (y, x) in cw.overlaps && cw.overlaps[(y, x)] == (cw.overlaps[(x, y)].1, cw.overlaps[(x, y)].0))
    && (forall x, y | (x, y) in cw.overlaps ::
          cw.overlaps[(x, y)].0 < x.length && cw.overlaps[(x, y)].1 < y.length)
  }

  /** `crossword.overlaps[x, y]`: the shared cell's positions, or None. */
  function Overlap(cw: Crossword, x: Variable, y: Variable): Option<(nat, nat)> {
    if (x, y) in cw.overlaps then Some(cw.overlaps[(x, y)]) else None
  }

  /** `crossword.neighbors(x)`: the other slots that overlap `x`. */
  function Neighbors(cw: Crossword, x: Variable): set<Variable> {
    set y | y in cw.variables && y != x && (y, x) in cw.overlaps
  }

  /** The words `wx` for `x` and `wy` for `y` agree on the letter of their
      shared cell; slots that do not cross are always compatible. */
  predicate Compatible(cw: Crossword, x: Variable, wx: Word, y: Variable, wy: Word) {
    match Overlap(cw, x, y)
    case None => true
    case Some(ij) => ij.0 < |wx| && ij.1 < |wy| && wx[ij.0] == wy[ij.1]
  }

  /** Neighbourhood is symmetric and exactly the pairs that have an overlap. */
  lemma NeighborsAreOverlaps(cw: Crossword, x: Variable, y: Variable)
    requires WellFormed(cw)
    ensures y in Neighbors(cw, x) <==> Overlap(cw, x, y).Some?
    ensures y in Neighbors(cw, x) <==> x in Neighbors(cw, y)
  {
    if (x, y) in cw.overlaps {
      assert (y, x) in cw.overlaps;
    }
    if (y, x) in cw.overlaps {
      assert (x, y) in cw.overlaps;
    }
  }

  /** Compatibility does not depend on which slot is named first. */
  lemma CompatibleSymmetric(cw: Crossword, x: Variable, wx: Word, y: Variable, wy: Word)
    requires WellFormed(cw)
    ensures Compatible(cw, x, wx, y, wy) <==> Compatible(cw, y, wy, x, wx)
  {
    if (x, y) in cw.overlaps {
      assert (y, x) in cw.overlaps;
    }
    if (y, x) in cw.overlaps {
      assert (x, y) in cw.overlaps;
    }
  }

  /** The grid cell (row, column) holding letter `k` of slot `v`. */
  function Cell(v: Variable, k: nat): (int, int) {
    if v.direction == Down then (v.i + k, v.j) else (v.i, v.j + k)
  }

  /** Geometry agrees with the overlap relation: whenever two distinct slots
      use the same cell, their overlap names exactly those positions. */
  ghost predicate CellsMatchOverlaps(cw: Crossword) {
    forall x, y, k: nat, l: nat | x in cw.variables && y in cw.variables && x != y
        && k < x.length && l < y.length && Cell(x, k) == Cell(y, l) ::
      Overlap(cw, x, y) == Some((k, l))
  }
}
