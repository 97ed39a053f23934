/** `letter_grid`: the two-dimensional picture of an assignment. */
module Letters {
  import opened Wrappers
  import opened Grid
  import opened Assignments
  import Collections

  type Picture = seq<seq<Option<char>>>

  /** Indexing the picture outside its rows or columns. */
  datatype GridError = IndexOutOfGrid

  /** Every (slot, letter index) the assignment writes: the whole bound word,
      whatever the slot's declared length. */
  ghost function Positions(a: Assignment): set<(Variable, nat)> {
    set v, k: nat | v in a && k < |a[v]| :: (v, k)
  }

  predicate InGrid(cw: Crossword, c: (int, int)) {
    0 <= c.0 < cw.height && 0 <= c.1 < cw.width
  }

  /** `g` is a height by width picture in which a cell is blank exactly when
      no position in `marks` writes it, and otherwise holds the letter some
      position in `marks` writes there. */
  ghost predicate Painted(cw: Crossword, a: Assignment, g: Picture, marks: set<(Variable, nat)>) {
    && |g| == cw.height
    && (forall i | 0 <= i < |g| :: |g[i]| == cw.width)
    && (forall i, j | 0 <= i < cw.height && 0 <= j < cw.width ::
          (g[i][j].None? <==> forall m | m in marks :: Cell(m.0, m.1) != (i, j)))
    && (forall i, j | 0 <= i < cw.height && 0 <= j < cw.width && g[i][j].Some? ::
          exists m | m in marks :: Cell(m.0, m.1) == (i, j) && m.0 in a && m.1 < |a[m.0]| && a[m.0][m.1] == g[i][j].value)
  }

  /** The picture of the whole assignment. */
  ghost predicate Renders(cw: Crossword, a: Assignment, g: Picture) {
    Painted(cw, a, g, Positions(a))
  }

  function Blank(cw: Crossword): (g: Picture)
    ensures Painted(cw, map[], g, {})
  {
    seq(cw.height, _ => seq(cw.width, _ => None))
  }

  /** `letters[i][j] = x` for the cell `c = (i, j)`. */
  function Put(g: Picture, c: (int, int), x: Option<char>): (r: Picture)
    requires 0 <= c.0 < |g| && 0 <= c.1 < |g[c.0]|
    ensures |r| == |g| && forall i | 0 <= i < |g| :: |r[i]| == |g[i]|
    ensures r[c.0][c.1] == x
    ensures forall i, j | 0 <= i < |g| && 0 <= j < |g[i]| && (i, j) != c :: r[i][j] == g[i][j]
  {
    g[c.0 := g[c.0][c.1 := x]]
  }

  /** After writing letter `k` of `v`'s word, a cell is blank exactly when no
      position written so far writes it. */
  lemma PaintStepBlanks(cw: Crossword, a: Assignment, g: Picture, marks: set<(Variable, nat)>, v: Variable, k: nat)
    requires Painted(cw, a, g, marks) && v in a && k < |a[v]| && InGrid(cw, Cell(v, k))
    ensures var g' := Put(g, Cell(v, k), Some(a[v][k]));
      forall i, j | 0 <= i < cw.height && 0 <= j < cw.width ::
        (g'[i][j].None? <==> forall m | m in marks + {(v, k)} :: Cell(m.0, m.1) != (i, j))
  {
    var g': Picture := Put(g, Cell(v, k), Some(a[v][k]));
    forall i, j | 0 <= i < cw.height && 0 <= j < cw.width
      ensures g'[i][j].None? <==> forall m | m in marks + {(v, k)} :: Cell(m.0, m.1) != (i, j)
    {
      if (i, j) != Cell(v, k) {
        assert g'[i][j] == g[i][j];
        assert (g[i][j].None? <==> forall m | m in marks :: Cell(m.0, m.1) != (i, j));
      } else {
        assert (v, k) in marks + {(v, k)};
      }
    }
  }

  /** After writing letter `k` of `v`'s word, every written cell holds the
      letter of a position written so far. */
  lemma PaintStepLetters(cw: Crossword, a: Assignment, g: Picture, marks: set<(Variable, nat)>, v: Variable, k: nat)
    requires Painted(cw, a, g, marks) && v in a && k < |a[v]| && InGrid(cw, Cell(v, k))
    ensures var g' := Put(g, Cell(v, k), Some(a[v][k]));
      forall i, j | 0 <= i < cw.height && 0 <= j < cw.width && g'[i][j].Some? ::
        exists m | m in marks + {(v, k)} :: Cell(m.0, m.1) == (i, j) && m.0 in a && m.1 < |a[m.0]| && a[m.0][m.1] == g'[i][j].value
  {
    var g': Picture := Put(g, Cell(v, k), Some(a[v][k]));
    var marks' := marks + {(v, k)};
    forall i, j | 0 <= i < cw.height && 0 <= j < cw.width && g'[i][j].Some?
      ensures exists m | m in marks' :: Cell(m.0, m.1) == (i, j) && m.0 in a && m.1 < |a[m.0]| && a[m.0][m.1] == g'[i][j].value
    {
      if (i, j) == Cell(v, k) {
        assert (v, k) in marks';
      } else {
        assert g'[i][j] == g[i][j];
        var m :| m in marks && Cell(m.0, m.1) == (i, j) && m.0 in a && m.1 < |a[m.0]| && a[m.0][m.1] == g[i][j].value;
        assert m in marks';
      }
    }
  }

  /** Writing letter `k` of `v`'s word into the picture. */
  lemma PaintStep(cw: Crossword, a: Assignment, g: Picture, marks: set<(Variable, nat)>, v: Variable, k: nat)
    requires Painted(cw, a, g, marks) && v in a && k < |a[v]| && InGrid(cw, Cell(v, k))
    ensures Painted(cw, a, Put(g, Cell(v, k), Some(a[v][k])), marks + {(v, k)})
  {
    PaintStepBlanks(cw, a, g, marks, v, k);
    PaintStepLetters(cw, a, g, marks, v, k);
  }

  /** The blank picture is the picture of the empty set of positions. */
  lemma BlankPainted(cw: Crossword, a: Assignment)
    ensures Painted(cw, a, Blank(cw), {})
  {
  }

  /** The positions of the words of the slots `vs`. */
  ghost function PositionsOf(a: Assignment, vs: seq<Variable>): set<(Variable, nat)> {
    set v, k: nat | v in vs && v in a && k < |a[v]| :: (v, k)
  }

  lemma PositionsOfPrefix(a: Assignment, vs: seq<Variable>, t: nat)
    requires t < |vs| && vs[t] in a
    ensures PositionsOf(a, vs[..t + 1]) == PositionsOf(a, vs[..t]) + FirstPositions(vs[t], |a[vs[t]]|)
  {
    assert vs[..t + 1] == vs[..t] + [vs[t]];
    assert forall u :: u in vs[..t + 1] <==> u in vs[..t] || u == vs[t];
  }

  lemma PositionsOfAll(a: Assignment, vs: seq<Variable>)
    requires forall u :: u in vs <==> u in a
    ensures PositionsOf(a, vs[..|vs|]) == Positions(a)
  {
    assert vs[..|vs|] == vs;
  }

  /** The first `n` letter positions of slot `v`. */
  ghost function FirstPositions(v: Variable, n: nat): set<(Variable, nat)> {
    set l: nat | l < n :: (v, l)
  }

  lemma FirstPositionsStep(v: Variable, n: nat)
    ensures FirstPositions(v, n + 1) == FirstPositions(v, n) + {(v, n)}
  {
    assert (v, n) in FirstPositions(v, n + 1);
  }

  /** The inner loop of `letter_grid`: write the letters of `v`'s word. */
  method PaintWord(cw: Crossword, a: Assignment, v: Variable, g: Picture, ghost marks: set<(Variable, nat)>)
    returns (r: Option<Picture>)
    requires v in a && Painted(cw, a, g, marks)
    ensures r.None? <==> exists l: nat | l < |a[v]| :: !InGrid(cw, Cell(v, l))
    ensures r.Some? ==> Painted(cw, a, r.value, marks + FirstPositions(v, |a[v]|))
  {
    var word := a[v];
    var p := g;
    ghost var done := marks;
    var k := 0;
    while k < |word|
      invariant 0 <= k <= |word|
      invariant Painted(cw, a, p, done)
      invariant done == marks + FirstPositions(v, k)
      invariant forall l: nat | l < k :: InGrid(cw, Cell(v, l))
    {
      var c := Cell(v, k);
      if !InGrid(cw, c) {
        return None;
      }
      PaintStep(cw, a, p, done, v, k);
      FirstPositionsStep(v, k);
      p := Put(p, c, Some(word[k]));
      done := done + {(v, k)};
      k := k + 1;
    }
    return Some(p);
  }

  /** `letter_grid(assignment)`: start from a blank height by width picture
      and write every letter of every bound word into its cell, slot after
      slot. A cell outside the picture is an index error. */
  method LetterGrid(cw: Crossword, a: Assignment) returns (r: Result<Picture, GridError>)
    ensures r.Failure? <==> exists m | m in Positions(a) :: !InGrid(cw, Cell(m.0, m.1))
    ensures r.Success? ==> Renders(cw, a, r.value)
  {
    var g := Blank(cw);
    BlankPainted(cw, a);
    var slots := Collections.SetToSeq(a.Keys);
    var t := 0;
    while t < |slots|
      invariant 0 <= t <= |slots|
      invariant Painted(cw, a, g, PositionsOf(a, slots[..t]))
      invariant forall m | m in PositionsOf(a, slots[..t]) :: InGrid(cw, Cell(m.0, m.1))
    {
      var v := slots[t];
      assert v in a;
      var painted := PaintWord(cw, a, v, g, PositionsOf(a, slots[..t]));
      if painted.None? {
        var l: nat :| l < |a[v]| && !InGrid(cw, Cell(v, l));
        assert (v, l) in Positions(a);
        return Failure(IndexOutOfGrid);
      }
      PositionsOfPrefix(a, slots, t);
      g := painted.value;
      t := t + 1;
    }
    PositionsOfAll(a, slots);
    return Success(g);
  }

  /** Two bound words that write the same cell write the same letter there,
      when the assignment is consistent and the overlaps match the geometry. */
  lemma SharedCellSameLetter(cw: Crossword, a: Assignment, v: Variable, k: nat, u: Variable, l: nat)
    requires WellFormed(cw) && CellsMatchOverlaps(cw) && a.Keys <= cw.variables && Consistent(cw, a)
    requires v in a && k < |a[v]| && u in a && l < |a[u]| && Cell(u, l) == Cell(v, k)
    ensures a[v][k] == a[u][l]
  {
    if u != v {
      assert |a[v]| == v.length && |a[u]| == u.length;
      assert Overlap(cw, v, u) == Some((k, l));
      assert u in Neighbors(cw, v);
      assert Compatible(cw, v, a[v], u, a[u]);
    }
  }

  /** A written cell holds the letter of some position that writes it. */
  lemma WrittenBy(cw: Crossword, a: Assignment, g: Picture, v: Variable, k: nat) returns (u: Variable, l: nat)
    requires Renders(cw, a, g) && v in a && k < |a[v]| && InGrid(cw, Cell(v, k))
    ensures u in a && l < |a[u]| && Cell(u, l) == Cell(v, k)
    ensures g[Cell(v, k).0][Cell(v, k).1] == Some(a[u][l])
  {
    var c := Cell(v, k);
    assert (v, k) in Positions(a);
    assert g[c.0][c.1].Some?;
    var m :| m in Positions(a) && Cell(m.0, m.1) == c && m.0 in a && m.1 < |a[m.0]| && a[m.0][m.1] == g[c.0][c.1].value;
    u, l := m.0, m.1;
  }

  /** On a consistent assignment of a puzzle whose overlaps match its
      geometry, every cell a word writes shows that word's letter: the
      picture does not depend on the order the slots are written in. */
  lemma PictureAgreesWithEveryWord(cw: Crossword, a: Assignment, g: Picture, v: Variable, k: nat)
    requires WellFormed(cw) && CellsMatchOverlaps(cw) && a.Keys <= cw.variables
    requires Consistent(cw, a) && Renders(cw, a, g)
    requires v in a && k < |a[v]| && InGrid(cw, Cell(v, k))
    ensures g[Cell(v, k).0][Cell(v, k).1] == Some(a[v][k])
  {
    var u, l := WrittenBy(cw, a, g, v, k);
    SharedCellSameLetter(cw, a, v, k, u, l);
  }
}
