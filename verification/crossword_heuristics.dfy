/** The search heuristics: least-constraining-value ordering
    (`order_domain_values`) and minimum-remaining-values then degree
    (`select_unassigned_variable`). */
module Heuristics {
  import opened Wrappers
  import opened Grid
  import opened Domains
  import Collections

  /** The (neighbour, word) pairs that choosing `w` for `v` would rule out:
      for each unassigned neighbour, every word of its domain that equals `w`
      or differs from `w` at the shared cell. */
  function RuledOut(cw: Crossword, d: Domains, v: Variable, a: Assignment, w: Word): set<(Variable, Word)> {
    set n, nw | n in Neighbors(cw, v) && n !in a && n in d && nw in d[n]
                && (nw == w || !Compatible(cw, v, w, n, nw)) :: (n, nw)
  }

  /** The count the source accumulates in `word_rank[w]`; it is zero
      exactly when every word left to every unassigned neighbour differs
      from `w` and agrees with it at the shared cell. */
  function Rank(cw: Crossword, d: Domains, v: Variable, a: Assignment, w: Word): (r: nat)
    ensures r == 0 <==> forall n, nw | n in Neighbors(cw, v) && n !in a && n in d && nw in d[n] ::
      nw != w && Compatible(cw, v, w, n, nw)
  {
    NothingRuledOut(cw, d, v, a, w);
    |RuledOut(cw, d, v, a, w)|
  }

  /** `w` rules nothing out exactly when it is compatible with, and differs
      from, every word left to every unassigned neighbour. */
  lemma NothingRuledOut(cw: Crossword, d: Domains, v: Variable, a: Assignment, w: Word)
    ensures RuledOut(cw, d, v, a, w) == {} <==> forall n, nw | n in Neighbors(cw, v) && n !in a && n in d && nw in d[n] ::
      nw != w && Compatible(cw, v, w, n, nw)
  {
    if RuledOut(cw, d, v, a, w) != {} {
      var p :| p in RuledOut(cw, d, v, a, w);
    }
    if !forall n, nw | n in Neighbors(cw, v) && n !in a && n in d && nw in d[n] :: nw != w && Compatible(cw, v, w, n, nw) {
      var n, nw :| n in Neighbors(cw, v) && n !in a && n in d && nw in d[n] && !(nw != w && Compatible(cw, v, w, n, nw));
      assert (n, nw) in RuledOut(cw, d, v, a, w);
    }
  }

  /** `order_domain_values`: the words of `domains[v]`, each exactly once,
      least constraining first. */
  method OrderDomainValues(cw: Crossword, d: Domains, v: Variable, a: Assignment) returns (values: seq<Word>)
    requires WellFormed(cw) && Fits(cw, d) && v in cw.variables
    ensures multiset(values) == multiset(d[v])
    ensures forall p, q | 0 <= p < q < |values| :: Rank(cw, d, v, a, values[p]) <= Rank(cw, d, v, a, values[q])
  {
    var wordRank := map w | w in d[v] :: Rank(cw, d, v, a, w) as int;
    var listed := Collections.SetToSeq(d[v]);
    values := Collections.SortBy(listed, wordRank);
    forall p | 0 <= p < |values| ensures values[p] in d[v] && wordRank[values[p]] == Rank(cw, d, v, a, values[p]) {
      assert values[p] in multiset(values);
    }
  }

  /** The number of unassigned neighbours of `v`. */
  function Degree(cw: Crossword, a: Assignment, v: Variable): nat {
    |set n | n in Neighbors(cw, v) && n !in a|
  }

  /** The minimum-remaining-values loop: every unassigned slot whose domain
      is as small as any unassigned slot's, in an unspecified order. */
  method SmallestDomains(cw: Crossword, d: Domains, a: Assignment) returns (smallest: seq<Variable>)
    requires cw.variables <= d.Keys && cw.variables - a.Keys != {}
    ensures smallest != []
    ensures forall t | 0 <= t < |smallest| :: smallest[t] in cw.variables && smallest[t] !in a
    ensures forall t, u | 0 <= t < |smallest| && u in cw.variables && u !in a :: |d[smallest[t]]| <= |d[u]|
    ensures forall u | u in cw.variables && u !in a && |d[u]| == |d[smallest[0]]| :: u in smallest
  {
    var vars := Collections.SetToSeq(cw.variables);
    smallest := [];
    var size: Option<nat> := None;  // float('inf')
    var k := 0;
    while k < |vars|
      invariant 0 <= k <= |vars|
      invariant size.None? <==> smallest == []
      invariant size.None? ==> forall t | 0 <= t < k :: vars[t] in a
      invariant forall t | 0 <= t < |smallest| ::
        smallest[t] in cw.variables && smallest[t] !in a && size.Some? && |d[smallest[t]]| == size.value
      invariant forall t | 0 <= t < k && vars[t] !in a :: size.Some? && size.value <= |d[vars[t]]|
      invariant forall t | 0 <= t < k && vars[t] !in a && size.Some? && |d[vars[t]]| == size.value :: vars[t] in smallest
    {
      var u := vars[k];
      assert u in cw.variables;
      if u !in a {
        if size.Some? && |d[u]| == size.value {
          smallest := smallest + [u];
        }
        if size.None? || |d[u]| < size.value {
          smallest := [u];
          size := Some(|d[u]|);
        }
      }
      k := k + 1;
    }
    var w :| w in cw.variables - a.Keys;
    assert w in vars;
    forall t, u | 0 <= t < |smallest| && u in cw.variables && u !in a ensures |d[smallest[t]]| <= |d[u]| {
      assert u in vars;
    }
    forall u | u in cw.variables && u !in a && |d[u]| == |d[smallest[0]]| ensures u in smallest {
      assert u in vars;
    }
  }

  /** `select_unassigned_variable`: an unassigned slot with the fewest
      remaining values and, among those, the most unassigned neighbours;
      remaining ties are broken by an arbitrary pick (`random.choice`). */
  method SelectUnassignedVariable(cw: Crossword, d: Domains, a: Assignment) returns (v: Variable)
    requires cw.variables <= d.Keys && cw.variables - a.Keys != {}
    ensures v in cw.variables && v !in a
    ensures forall u | u in cw.variables && u !in a :: |d[v]| <= |d[u]|
    ensures forall u | u in cw.variables && u !in a && |d[u]| == |d[v]| :: Degree(cw, a, u) <= Degree(cw, a, v)
  {
    var smallest := SmallestDomains(cw, d, a);
    if |smallest| == 1 {
      return smallest[0];
    }
    var largest: seq<Variable> := [];
    var most: nat := 0;
    var k := 0;
    while k < |smallest|
      invariant 0 <= k <= |smallest|
      invariant k == 0 ==> most == 0 && largest == []
      invariant k > 0 ==> largest != []
      invariant forall t | 0 <= t < |largest| :: largest[t] in smallest && Degree(cw, a, largest[t]) == most
      invariant forall t | 0 <= t < k :: Degree(cw, a, smallest[t]) <= most
    {
      var u := smallest[k];
      var unassignedNeighbors := |set n | n in Neighbors(cw, u) && n !in a|;
      if unassignedNeighbors == most {
        largest := largest + [u];
      }
      if unassignedNeighbors > most {
        largest := [u];
        most := unassignedNeighbors;
      }
      k := k + 1;
    }
    assert largest[0] in largest;
    v :| v in largest;
    forall u | u in cw.variables && u !in a && |d[u]| == |d[v]| ensures Degree(cw, a, u) <= Degree(cw, a, v) {
      assert |d[smallest[0]]| == |d[v]| by {
        var t :| 0 <= t < |smallest| && smallest[t] == v;
        assert smallest[0] in smallest;
      }
      assert u in smallest;
    }
  }
}
