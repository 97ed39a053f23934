/** Backtracking search with interleaved arc consistency (`backtrack`) and
    the top-level `solve`. */
module Search {
  import opened Wrappers
  import opened Grid
  import opened Domains
  import opened ArcConsistency
  import opened Assignments
  import opened Heuristics
  import Collections

  /** `s` solves the puzzle: every slot bound, all constraints met, and every
      word taken from the vocabulary. */
  ghost predicate IsSolution(cw: Crossword, s: Assignment) {
    && s.Keys == cw.variables
    && Consistent(cw, s)
    && forall v | v in s :: s[v] in cw.words
  }

  /** `s` is a complete consistent assignment that extends `a` and takes the
      word of every slot `a` leaves unbound from that slot's domain in `d`. */
  ghost predicate SolutionFrom(cw: Crossword, d: Domains, a: Assignment, s: Assignment) {
    && s.Keys == cw.variables
    && Consistent(cw, s)
    && Extends(s, a)
    && forall v | v in s && v !in a :: v in d && s[v] in d[v]
  }

  /** The narrowing done before propagation: each bound slot's domain becomes
      the singleton of its word. */
  function Narrow(d: Domains, a: Assignment): (r: Domains)
    ensures r.Keys == d.Keys
    ensures forall v | v in d && v in a :: r[v] == {a[v]}
    ensures forall v | v in d && v !in a :: r[v] == d[v]
  {
    map v | v in d :: if v in a then {a[v]} else d[v]
  }

  /** The arcs `(neighbor, variable)` for each bound `variable` and each of
      its unbound neighbours, in an unspecified order. */
  method ArcsInto(cw: Crossword, a: Assignment) returns (arcs: seq<Arc>)
    requires WellFormed(cw)
    ensures ArcsOk(cw, arcs)
    ensures forall n, v :: (n, v) in arcs <==> v in a && n in Neighbors(cw, v) && n !in a
  {
    var all := set v, n | v in a && n in Neighbors(cw, v) && n !in a :: (n, v);
    arcs := Collections.SetToSeq(all);
    forall k | 0 <= k < |arcs| ensures arcs[k].0 in cw.variables && arcs[k].1 in cw.variables && arcs[k].0 != arcs[k].1 {
      assert arcs[k] in all;
    }
  }

  /** Extending a trial `a[v := value]` extends `a` and binds `v` to `value`. */
  lemma ExtendsTrial(s: Assignment, a: Assignment, v: Variable, value: Word)
    requires v !in a && Extends(s, a[v := value])
    ensures Extends(s, a) && v in s && s[v] == value
  {
    forall u | u in a ensures u in s && s[u] == a[u] {
      assert u in a[v := value] && a[v := value][u] == a[u];
    }
  }

  /** A solution that binds `v` to `value` survives the narrowing of the trial
      `a[v := value]`, and that trial assignment is consistent. */
  lemma TrialKeepsSolution(cw: Crossword, d: Domains, a: Assignment, v: Variable, value: Word, s: Assignment)
    requires WellFormed(cw) && Fits(cw, d)
    requires SolutionFrom(cw, d, a, s) && v !in a && v in cw.variables && s[v] == value
    ensures Consistent(cw, a[v := value])
    ensures Within(s, Narrow(d, a[v := value])) && AgreesEverywhere(cw, s)
  {
    ConsistentRestrict(cw, s, a[v := value]);
    ConsistentAgrees(cw, s);
  }

  /** No solution from `d` extending `a` binds `v` to `w`: the trial of `w`
      may fail without losing a solution. */
  ghost predicate Excluded(cw: Crossword, d: Domains, a: Assignment, v: Variable, w: Word) {
    forall s | SolutionFrom(cw, d, a, s) :: v !in s || s[v] != w
  }

  /** An inconsistent trial excludes its value. */
  lemma InconsistentTrialExcluded(cw: Crossword, d: Domains, a: Assignment, v: Variable, value: Word)
    requires WellFormed(cw) && Fits(cw, d) && v !in a && v in cw.variables
    requires !Consistent(cw, a[v := value])
    ensures Excluded(cw, d, a, v, value)
  {
    forall s | SolutionFrom(cw, d, a, s) && v in s ensures s[v] != value {
      if s[v] == value {
        TrialKeepsSolution(cw, d, a, v, value, s);
      }
    }
  }

  /** A trial whose propagation emptied a domain excludes its value, because
      propagation keeps every solution. */
  lemma EmptiedTrialExcluded(cw: Crossword, d: Domains, a: Assignment, v: Variable, value: Word, d2: Domains)
    requires WellFormed(cw) && Fits(cw, d) && Fits(cw, d2) && v !in a && v in cw.variables
    requires forall s | Within(s, Narrow(d, a[v := value])) && AgreesEverywhere(cw, s) :: Within(s, d2)
    requires exists u | u in d2 :: d2[u] == {}
    ensures Excluded(cw, d, a, v, value)
  {
    var u :| u in d2 && d2[u] == {};
    forall s | SolutionFrom(cw, d, a, s) && v in s ensures s[v] != value {
      if s[v] == value {
        TrialKeepsSolution(cw, d, a, v, value, s);
        assert false;
      }
    }
  }

  /** A trial whose recursive search found nothing excludes its value. */
  lemma ExhaustedTrialExcluded(cw: Crossword, d: Domains, a: Assignment, v: Variable, value: Word, trial: Assignment, d2: Domains)
    requires WellFormed(cw) && Fits(cw, d) && Fits(cw, d2) && v !in a && v in cw.variables
    requires trial == a[v := value]
    requires forall s | Within(s, Narrow(d, trial)) && AgreesEverywhere(cw, s) :: Within(s, d2)
    requires forall s :: !SolutionFrom(cw, d2, trial, s)
    ensures Excluded(cw, d, a, v, value)
  {
    forall s | SolutionFrom(cw, d, a, s) && v in s ensures s[v] != value {
      if s[v] == value {
        TrialKeepsSolution(cw, d, a, v, value, s);
        assert Within(s, d2);
        assert Extends(s, trial) by {
          forall u | u in trial ensures u in s && s[u] == trial[u] {
            if u != v {
              assert u in a;
            }
          }
        }
        assert SolutionFrom(cw, d2, trial, s) by {
          forall u | u in s && u !in trial ensures u in d2 && s[u] in d2[u] {
            assert u in cw.variables;
          }
        }
      }
    }
  }

  /** Trying every value in the order `order_domain_values` gave excludes
      every value of `v`'s domain. */
  lemma AllValuesExcluded(cw: Crossword, d: Domains, a: Assignment, v: Variable, values: seq<Word>)
    requires v in d && multiset(values) == multiset(d[v])
    requires forall t | 0 <= t < |values| :: Excluded(cw, d, a, v, values[t])
    ensures forall w | w in d[v] :: Excluded(cw, d, a, v, w)
  {
    forall w | w in d[v] ensures Excluded(cw, d, a, v, w) {
      assert w in multiset(values);
      var t :| 0 <= t < |values| && values[t] == w;
    }
  }

  /** The narrowed store of a consistent trial is again a node-consistent
      store of the puzzle. */
  lemma NarrowFits(cw: Crossword, d: Domains, a: Assignment)
    requires Fits(cw, d) && Consistent(cw, a)
    ensures Fits(cw, Narrow(d, a))
  {
  }

  /** `backtrack(assignment)` on the store `d`; also returns the store as the
      call leaves it. A found assignment binds every slot, extends the given
      one, is consistent when the given one is, and takes every new word from
      `d`. When no assignment is found, `d` is returned exactly (every trial's
      snapshot was restored) and no solution extends the given assignment
      within `d`. */
  method Backtrack(cw: Crossword, d: Domains, a: Assignment) returns (r: Option<Assignment>, d': Domains)
    requires WellFormed(cw) && Fits(cw, d) && a.Keys <= cw.variables
    ensures Fits(cw, d')
    ensures r.None? ==> d' == d
    ensures r.Some? ==> r.value.Keys == cw.variables && Extends(r.value, a)
    ensures r.Some? && Consistent(cw, a) ==> Consistent(cw, r.value)
    ensures r.Some? ==> forall v | v in r.value && v !in a :: r.value[v] in d[v]
    ensures r.None? ==> forall s :: !SolutionFrom(cw, d, a, s)
    decreases cw.variables - a.Keys, 2
  {
    var complete := AssignmentComplete(cw, a);
    if complete {
      return Some(a), d;
    }
    assert cw.variables - a.Keys != {} by {
      var u :| u in cw.variables && u !in a;
      assert u in cw.variables - a.Keys;
    }
    var v := SelectUnassignedVariable(cw, d, a);
    var values := OrderDomainValues(cw, d, v, a);
    r, d' := TryValues(cw, d, a, v, values);
  }

  /** The loop of `backtrack` over the ordered values of `v`: the first
      trial that succeeds is the result; when none does, every value of the
      domain is excluded and the store is returned unchanged. */
  method TryValues(cw: Crossword, d: Domains, a: Assignment, v: Variable, values: seq<Word>) returns (r: Option<Assignment>, d': Domains)
    requires WellFormed(cw) && Fits(cw, d) && a.Keys <= cw.variables
    requires v in cw.variables && v !in a && multiset(values) == multiset(d[v])
    ensures Fits(cw, d')
    ensures r.None? ==> d' == d && forall w | w in d[v] :: Excluded(cw, d, a, v, w)
    ensures r.Some? ==> r.value.Keys == cw.variables && Extends(r.value, a) && Consistent(cw, r.value)
    ensures r.Some? ==> forall u | u in r.value && u !in a :: r.value[u] in d[u]
    ensures r.Some? ==> exists k | 0 <= k < |values| :: r.value[v] == values[k] && forall t | 0 <= t < k :: Excluded(cw, d, a, v, values[t])
    decreases cw.variables - a.Keys, 1
  {
    d' := d;
    var k := 0;
    while k < |values|
      invariant 0 <= k <= |values|
      invariant d' == d
      invariant forall t | 0 <= t < k :: Excluded(cw, d, a, v, values[t])
    {
      assert values[k] in d[v] by {
        assert values[k] in multiset(values);
      }
      r, d' := TryValue(cw, d', a, v, values[k]);
      if r.Some? {
        assert r.value[v] == values[k];
        return;
      }
      k := k + 1;
    }
    AllValuesExcluded(cw, d, a, v, values);
    return None, d';
  }

  /** The propagation of a trial: narrow every bound slot's domain to its word and
      run AC-3 on the arcs into the bound slots. The unbound slots' domains
      only shrink, no solution consistent with the trial is lost, and a false
      verdict means some domain is empty. */
  method Propagate(cw: Crossword, d: Domains, trial: Assignment) returns (ok: bool, d': Domains)
    requires WellFormed(cw) && Fits(cw, d) && Consistent(cw, trial)
    ensures Fits(cw, d')
    ensures forall u | u in d && u !in trial :: d'[u] <= d[u]
    ensures !ok ==> exists u | u in d' :: d'[u] == {}
    ensures forall s | Within(s, Narrow(d, trial)) && AgreesEverywhere(cw, s) :: Within(s, d')
  {
    NarrowFits(cw, d, trial);
    d' := Narrow(d, trial);
    var arcs := ArcsInto(cw, trial);
    ok, d' := AC3(cw, d', Some(arcs));
  }

  /** One pass of the loop in `backtrack`: bind `v` to `value`, check the
      whole assignment, propagate, and recurse. A failed trial restores the
      snapshot of the store and excludes `value`. */
  method TryValue(cw: Crossword, d: Domains, a: Assignment, v: Variable, value: Word) returns (r: Option<Assignment>, d': Domains)
    requires WellFormed(cw) && Fits(cw, d) && a.Keys <= cw.variables
    requires v in cw.variables && v !in a && value in d[v]
    ensures Fits(cw, d')
    ensures r.None? ==> d' == d && Excluded(cw, d, a, v, value)
    ensures r.Some? ==> r.value.Keys == cw.variables && Extends(r.value, a)
    ensures r.Some? ==> Consistent(cw, r.value)
    ensures r.Some? ==> v in r.value && r.value[v] == value
    ensures r.Some? ==> forall u | u in r.value && u !in a :: r.value[u] in d[u]
    decreases cw.variables - a.Keys, 0
  {
    var trial := a[v := value];
    var snapshot := d;
    var ok := CheckConsistent(cw, trial);
    if !ok {
      InconsistentTrialExcluded(cw, d, a, v, value);
      return None, snapshot;
    }
    var propagated;
    propagated, d' := Propagate(cw, d, trial);
    if !propagated {
      EmptiedTrialExcluded(cw, d, a, v, value, d');
      return None, snapshot;
    }
    ghost var narrowed := d';
    r, d' := Backtrack(cw, d', trial);
    if r.Some? {
      ExtendsTrial(r.value, a, v, value);
      forall u | u in r.value && u !in a ensures r.value[u] in d[u] {
        if u != v {
          assert r.value[u] in narrowed[u];
        }
      }
      return;
    }
    ExhaustedTrialExcluded(cw, d, a, v, value, trial, narrowed);
    r, d' := None, snapshot;
  }

  /** `solve`: node consistency, AC-3 on every arc (its verdict is ignored, as
      in the source), then search from the empty assignment. A returned
      assignment is a solution; no result means the puzzle has none. */
  method Solve(cw: Crossword) returns (r: Option<Assignment>)
    requires WellFormed(cw)
    ensures r.Some? ==> IsSolution(cw, r.value)
    ensures r.None? ==> forall s :: !IsSolution(cw, s)
  {
    var d := EnforceNodeConsistency(InitialDomains(cw));
    var arcConsistent, d' := AC3(cw, d, None);
    var after;
    r, after := Backtrack(cw, d', map[]);
    if r.None? {
      forall s | IsSolution(cw, s) ensures false {
        ConsistentAgrees(cw, s);
        assert Within(s, d);
        assert SolutionFrom(cw, d', map[], s);
      }
    }
  }
}
