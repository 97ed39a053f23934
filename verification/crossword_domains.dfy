/** The domain store (slot -> candidate words), the unary length filter and
    the binary `revise` step of arc consistency. */
module Domains {
  import opened Grid

  /** `self.domains`. The source deep-copies this dictionary to snapshot it;
      here it is a value, so every copy is independent. */
  type Domains = map<Variable, set<Word>>

  /** Every candidate word has its slot's length. */
  predicate NodeConsistent(d: Domains) {
    forall v, w | v in d && w in d[v] :: |w| == v.length
  }

  /** The store the search works on: one node-consistent domain per slot. */
  predicate Fits(cw: Crossword, d: Domains) {
    d.Keys == cw.variables && NodeConsistent(d)
  }

  /** The constructor's store: the whole vocabulary for every slot. */
  function InitialDomains(cw: Crossword): (r: Domains)
    ensures r.Keys == cw.variables
    ensures forall v, w | v in r :: w in r[v] <==> w in cw.words
  {
    map v | v in cw.variables :: cw.words
  }

  /** `enforce_node_consistency`: drop every word whose length differs from
      its slot's length, and nothing else. */
  function EnforceNodeConsistency(d: Domains): (r: Domains)
    ensures r.Keys == d.Keys
    ensures NodeConsistent(r)
    ensures forall v | v in d :: r[v] <= d[v]
    ensures forall v, w | v in d && w in d[v] && |w| == v.length :: w in r[v]
  {
    map v | v in d :: set w | w in d[v] && |w| == v.length
  }

  /** A node-consistent store is a fixed point of the filter. */
  lemma NodeConsistentIsFixedPoint(d: Domains)
    requires NodeConsistent(d)
    ensures EnforceNodeConsistency(d) == d
  {
    var r := EnforceNodeConsistency(d);
    forall v | v in d ensures r[v] == d[v] {
      assert forall w | w in d[v] :: w in r[v];
    }
  }

  /** Running the filter twice is the same as running it once. */
  lemma EnforceNodeConsistencyIdempotent(d: Domains)
    ensures EnforceNodeConsistency(EnforceNodeConsistency(d)) == EnforceNodeConsistency(d)
  {
    NodeConsistentIsFixedPoint(EnforceNodeConsistency(d));
  }

  /** Some word of `dy` agrees with `wx` at the crossing of `x` and `y`. */
  predicate Supported(cw: Crossword, x: Variable, wx: Word, y: Variable, dy: set<Word>) {
    exists wy | wy in dy :: Compatible(cw, x, wx, y, wy)
  }

  /** `x` is arc-consistent with `y`: if they cross, every word left for `x`
      has a partner left for `y`. */
  predicate ArcConsistent(cw: Crossword, d: Domains, x: Variable, y: Variable)
    requires x in d && y in d
  {
    Overlap(cw, x, y).None? || forall wx | wx in d[x] :: Supported(cw, x, wx, y, d[y])
  }

  /** Every ordered pair of slots is arc-consistent. */
  ghost predicate AllArcConsistent(cw: Crossword, d: Domains) {
    forall x, y | x in d && y in d :: ArcConsistent(cw, d, x, y)
  }

  /** `revise(x, y)`: returns the new store and whether `domains[x]` changed.
      The words kept for `x` are exactly those with a partner in `domains[y]`;
      no other domain is touched; the flag is raised exactly when `x` was not
      yet arc-consistent with `y`, and afterwards it is. */
  function Revise(cw: Crossword, d: Domains, x: Variable, y: Variable): (r: (Domains, bool))
    requires WellFormed(cw) && NodeConsistent(d)
    requires x in d && y in d && x != y
    ensures r.0.Keys == d.Keys
    ensures forall v | v in d && v != x :: r.0[v] == d[v]
    ensures r.0[x] <= d[x]
    ensures Overlap(cw, x, y).Some? ==>
      forall wx | wx in d[x] :: wx in r.0[x] <==> Supported(cw, x, wx, y, d[y])
    ensures Overlap(cw, x, y).None? ==> r.0 == d && !r.1
    ensures r.1 <==> r.0[x] != d[x]
    ensures r.1 <==> !ArcConsistent(cw, d, x, y)
    ensures ArcConsistent(cw, r.0, x, y)
  {
    if Overlap(cw, x, y).None? then
      (d, false)
    else
      var kept := set wx | wx in d[x] && Supported(cw, x, wx, y, d[y]);
      var r := d[x := kept];
      assert forall wx | wx in kept :: Supported(cw, x, wx, y, r[y]);
      (r, kept != d[x])
  }

  /** On an arc-consistent store no `revise` call changes anything. */
  lemma ReviseIsIdleWhenArcConsistent(cw: Crossword, d: Domains)
    requires WellFormed(cw) && NodeConsistent(d) && AllArcConsistent(cw, d)
    ensures forall x, y | x in d && y in d && x != y :: Revise(cw, d, x, y) == (d, false)
  {
    forall x, y | x in d && y in d && x != y ensures Revise(cw, d, x, y) == (d, false) {
      assert ArcConsistent(cw, d, x, y);
      var r := Revise(cw, d, x, y);
      assert r.0[x] == d[x];
      assert r.0 == d;
    }
  }

  /** Revising `x` against `y` never breaks the reverse arc: a word of `y`
      supported by some word of `x` supports that word in turn, so the word
      survives. */
  lemma ReviseKeepsReverseArc(cw: Crossword, d: Domains, x: Variable, y: Variable)
    requires WellFormed(cw) && NodeConsistent(d)
    requires x in d && y in d && x != y
    requires ArcConsistent(cw, d, y, x)
    ensures ArcConsistent(cw, Revise(cw, d, x, y).0, y, x)
  {
    var r := Revise(cw, d, x, y).0;
    if Overlap(cw, y, x).Some? {
      NeighborsAreOverlaps(cw, x, y);
      forall wy | wy in r[y] ensures Supported(cw, y, wy, x, r[x]) {
        assert Supported(cw, y, wy, x, d[x]);
        var wx :| wx in d[x] && Compatible(cw, y, wy, x, wx);
        CompatibleSymmetric(cw, y, wy, x, wx);
        assert Supported(cw, x, wx, y, d[y]);
        assert wx in r[x];
      }
    }
  }

  /** A full assignment drawing every slot's word from its domain. */
  predicate Within(s: Assignment, d: Domains) {
    forall v | v in d :: v in s && s[v] in d[v]
  }

  /** Every pair of crossing slots agrees under `s`. */
  ghost predicate AgreesEverywhere(cw: Crossword, s: Assignment) {
    forall x, y | x in s && y in s :: Compatible(cw, x, s[x], y, s[y])
  }

  /** `revise` never removes a word that belongs to a solution. */
  lemma RevisePreservesSolutions(cw: Crossword, d: Domains, x: Variable, y: Variable, s: Assignment)
    requires WellFormed(cw) && NodeConsistent(d)
    requires x in d && y in d && x != y
    requires Within(s, d) && AgreesEverywhere(cw, s)
    ensures Within(s, Revise(cw, d, x, y).0)
  {
    assert Compatible(cw, x, s[x], y, s[y]);
    assert Supported(cw, x, s[x], y, d[y]);
  }

  /** The (slot, word) pairs of a store; strictly fewer after a real revision. */
  ghost function Entries(d: Domains): set<(Variable, Word)> {
    set v, w | v in d && w in d[v] :: (v, w)
  }

  /** A successful `revise` strictly shrinks the store, so AC-3 terminates. */
  lemma ReviseShrinksEntries(cw: Crossword, d: Domains, x: Variable, y: Variable)
    requires WellFormed(cw) && NodeConsistent(d)
    requires x in d && y in d && x != y
    requires Revise(cw, d, x, y).1
    ensures Entries(Revise(cw, d, x, y).0) < Entries(d)
  {
    var r := Revise(cw, d, x, y).0;
    var w :| w in d[x] && w !in r[x];
    assert (x, w) in Entries(d);
    assert (x, w) !in Entries(r);
  }
}
