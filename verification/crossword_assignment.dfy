/** Completeness and consistency of a (partial) assignment:
    `assignment_complete` and `consistent`. */
module Assignments {
  import opened Wrappers
  import opened Grid
  import opened Domains
  import Collections

  /** Every slot of the puzzle is bound. */
  predicate Complete(cw: Crossword, a: Assignment) {
    cw.variables <= a.Keys
  }

  /** `assignment_complete`: visits the slots and fails on the first unbound one. */
  method AssignmentComplete(cw: Crossword, a: Assignment) returns (done: bool)
    ensures done <==> Complete(cw, a)
  {
    var vars := Collections.SetToSeq(cw.variables);
    var k := 0;
    while k < |vars|
      invariant 0 <= k <= |vars|
      invariant forall t | 0 <= t < k :: vars[t] in a
    {
      if vars[k] !in a {
        return false;
      }
      k := k + 1;
    }
    assert forall v | v in cw.variables :: v in vars;
    return true;
  }

  /** The three constraints of the puzzle over the bound slots: each word has
      its slot's length, bound neighbours agree on their shared letter, and
      no word is used twice. */
  ghost predicate Consistent(cw: Crossword, a: Assignment) {
    && (forall v | v in a :: |a[v]| == v.length)
    && (forall x, y | x in a && y in a && y in Neighbors(cw, x) :: Compatible(cw, x, a[x], y, a[y]))
    && (forall x, y | x in a && y in a && x != y :: a[x] != a[y])
  }

  /** The constraints that mention the bound slot `v`, as the source checks
      them slot by slot. */
  ghost predicate SlotConsistent(cw: Crossword, a: Assignment, v: Variable)
    requires v in a
  {
    && |a[v]| == v.length
    && (forall n | n in Neighbors(cw, v) && n in a :: Compatible(cw, v, a[v], n, a[n]))
    && (forall u | u in a && u != v :: a[u] != a[v])
  }

  /** Checking slot by slot decides the global predicate. */
  lemma ConsistentBySlot(cw: Crossword, a: Assignment)
    ensures Consistent(cw, a) <==> forall v | v in a :: SlotConsistent(cw, a, v)
  {
    if forall v | v in a :: SlotConsistent(cw, a, v) {
      forall x, y | x in a && y in a && x != y ensures a[x] != a[y] {
        assert SlotConsistent(cw, a, y);
      }
    }
  }

  /** The neighbour loop of `consistent`: every bound neighbour of `v` agrees
      with it at their overlap. */
  method CheckNeighbors(cw: Crossword, a: Assignment, v: Variable) returns (ok: bool)
    requires WellFormed(cw) && v in a && |a[v]| == v.length
    ensures ok <==> forall n | n in Neighbors(cw, v) && n in a :: Compatible(cw, v, a[v], n, a[n])
  {
    var ns := Collections.SetToSeq(Neighbors(cw, v));
    var m := 0;
    while m < |ns|
      invariant 0 <= m <= |ns|
      invariant forall t | 0 <= t < m && ns[t] in a :: Compatible(cw, v, a[v], ns[t], a[ns[t]])
    {
      var n := ns[m];
      assert n in Neighbors(cw, v);
      NeighborsAreOverlaps(cw, v, n);
      var (i, j) := cw.overlaps[(v, n)];
      if n in a {
        if j >= |a[n]| || a[v][i] != a[n][j] {
          return false;
        }
      }
      m := m + 1;
    }
    forall n | n in Neighbors(cw, v) && n in a ensures Compatible(cw, v, a[v], n, a[n]) {
      assert n in ns;
      var t :| 0 <= t < |ns| && ns[t] == n;
    }
    return true;
  }

  /** The duplicate loop of `consistent`: no other bound slot holds `v`'s word. */
  method CheckUnique(a: Assignment, v: Variable) returns (ok: bool)
    requires v in a
    ensures ok <==> forall u | u in a && u != v :: a[u] != a[v]
  {
    var order := Collections.SetToSeq(a.Keys);
    var m := 0;
    while m < |order|
      invariant 0 <= m <= |order|
      invariant forall t | 0 <= t < m && order[t] != v :: a[order[t]] != a[v]
    {
      var u := order[m];
      assert u in a;
      if u != v && a[u] == a[v] {
        return false;
      }
      m := m + 1;
    }
    forall u | u in a && u != v ensures a[u] != a[v] {
      assert u in order;
      var t :| 0 <= t < |order| && order[t] == u;
    }
    return true;
  }

  /** `consistent` with the intended semantics: for each bound slot, check its
      length, then each bound neighbour at the overlap, then every other bound
      slot for the same word. */
  method CheckConsistent(cw: Crossword, a: Assignment) returns (ok: bool)
    requires WellFormed(cw)
    ensures ok <==> Consistent(cw, a)
  {
    ConsistentBySlot(cw, a);
    var order := Collections.SetToSeq(a.Keys);
    var k := 0;
    while k < |order|
      invariant 0 <= k <= |order|
      invariant forall t | 0 <= t < k :: SlotConsistent(cw, a, order[t])
    {
      var v := order[k];
      assert v in a;
      if v.length != |a[v]| {
        return false;
      }
      var agree := CheckNeighbors(cw, a, v);
      if !agree {
        return false;
      }
      var unique := CheckUnique(a, v);
      if !unique {
        return false;
      }
      k := k + 1;
    }
    forall v | v in a ensures SlotConsistent(cw, a, v) {
      assert v in order;
      var t :| 0 <= t < |order| && order[t] == v;
    }
    return true;
  }

  /** `s` binds every slot `a` binds, to the same word. */
  predicate Extends(s: Assignment, a: Assignment) {
    forall v | v in a :: v in s && s[v] == a[v]
  }

  /** Part of a consistent assignment is consistent. */
  lemma ConsistentRestrict(cw: Crossword, s: Assignment, a: Assignment)
    requires Consistent(cw, s) && Extends(s, a)
    ensures Consistent(cw, a)
  {
  }

  /** In a consistent assignment every crossing pair agrees, whichever slot is
      named first. */
  lemma ConsistentAgrees(cw: Crossword, a: Assignment)
    requires WellFormed(cw) && Consistent(cw, a)
    ensures AgreesEverywhere(cw, a)
  {
    forall x, y | x in a && y in a ensures Compatible(cw, x, a[x], y, a[y]) {
      NeighborsAreOverlaps(cw, x, y);
      if y in Neighbors(cw, x) {
        assert Compatible(cw, x, a[x], y, a[y]);
      }
    }
  }

  /** The errors the source raises instead of returning: reading the loop
      variable `neighbor` before any iteration has bound it
      (`UnboundLocalError`), and reading a neighbour's word past its end at
      the crossing (`IndexError`). */
  datatype PyError = UnboundLocalNeighbor | WordIndexOutOfRange

  /** `order` lists bound slots, and `nbrs[v]` lists exactly the neighbours
      of each of them: the iteration orders of the assignment and of each
      neighbour set, which Python leaves to the sets' layout. */
  ghost predicate VisitOrders(cw: Crossword, a: Assignment, order: seq<Variable>, nbrs: map<Variable, seq<Variable>>) {
    forall t | 0 <= t < |order| ::
      && order[t] in a
      && order[t] in nbrs
      && forall n :: n in nbrs[order[t]] <==> n in Neighbors(cw, order[t])
  }

  /** The word `wy` of `y` has no letter at the cell `y` shares with `x`. */
  predicate TooShort(cw: Crossword, x: Variable, y: Variable, wy: Word) {
    match Overlap(cw, x, y)
    case None => false
    case Some(ij) => ij.1 >= |wy|
  }

  /** The neighbour loop of `consistent` as written, over the neighbours
      `ns` of `v` from index `m`: the crossing letter of `v` is compared with
      the neighbour's, which is read without checking that neighbour's
      length first. It raises only when a bound neighbour's word is too
      short for the crossing, and when it returns, its answer says whether
      every bound neighbour is compatible with `v`. */
  function CrossingsAsWritten(cw: Crossword, a: Assignment, v: Variable, ns: seq<Variable>, m: nat): (r: Result<bool, PyError>)
    requires WellFormed(cw) && v in a && |a[v]| == v.length
    requires m <= |ns| && forall t | 0 <= t < |ns| :: ns[t] in Neighbors(cw, v)
    ensures r.Success? ==> (r.value <==> forall t | m <= t < |ns| && ns[t] in a :: Compatible(cw, v, a[v], ns[t], a[ns[t]]))
    ensures r.Failure? ==>
      r.error == WordIndexOutOfRange && exists t | m <= t < |ns| && ns[t] in a :: TooShort(cw, v, ns[t], a[ns[t]])
    decreases |ns| - m
  {
    if m == |ns| then Success(true)
    else
      var n := ns[m];
      NeighborsAreOverlaps(cw, v, n);
      var (i, j) := cw.overlaps[(v, n)];
      if n !in a then CrossingsAsWritten(cw, a, v, ns, m + 1)
      else if j >= |a[n]| then Failure(WordIndexOutOfRange)
      else if a[v][i] != a[n][j] then Success(false)
      else CrossingsAsWritten(cw, a, v, ns, m + 1)
  }

  /** `consistent` as written, visiting the bound slots in `order` from index
      `k` and the neighbours of each slot `v` in `nbrs[v]`; `bound` says
      whether the loop variable `neighbor` has been bound by an earlier
      iteration. A slot with no neighbours leaves it unbound, and the
      following `checked.append((var, neighbor))` then raises. The `checked`
      list is not modelled: a pair it skips was compared when the other slot
      was visited, after that slot's own length check, so skipping changes
      neither the answer nor whether a read raises. It raises
      `UnboundLocalError` only if some visited slot has no crossing, and
      `IndexError` only if some visited slot has a bound neighbour whose word
      is too short for their crossing. */
  function ConsistentAsWritten(cw: Crossword, a: Assignment, order: seq<Variable>, nbrs: map<Variable, seq<Variable>>, k: nat, bound: bool): (r: Result<bool, PyError>)
    requires WellFormed(cw) && k <= |order| && VisitOrders(cw, a, order, nbrs)
    ensures r == Failure(UnboundLocalNeighbor) ==> exists t | k <= t < |order| :: Neighbors(cw, order[t]) == {}
    ensures r == Failure(WordIndexOutOfRange) ==>
      exists t, n | k <= t < |order| && n in Neighbors(cw, order[t]) && n in a :: TooShort(cw, order[t], n, a[n])
    decreases |order| - k
  {
    if k == |order| then Success(true)
    else
      var v := order[k];
      if v.length != |a[v]| then Success(false)
      else
        match CrossingsAsWritten(cw, a, v, nbrs[v], 0)
        case Failure(e) => Failure(e)
        case Success(agree) =>
          if !agree then Success(false)
          else if !bound && nbrs[v] == [] then Failure(UnboundLocalNeighbor)
          else if exists u | u in a && u != v :: a[u] == a[v] then Success(false)
          else ConsistentAsWritten(cw, a, order, nbrs, k + 1, bound || nbrs[v] != [])
  }

  /** When the neighbour loop returns, its answer is the neighbour part of
      `SlotConsistent`, whatever the order of `ns`. */
  lemma CrossingsDecide(cw: Crossword, a: Assignment, v: Variable, ns: seq<Variable>)
    requires WellFormed(cw) && v in a && |a[v]| == v.length
    requires forall n :: n in ns <==> n in Neighbors(cw, v)
    requires CrossingsAsWritten(cw, a, v, ns, 0).Success?
    ensures CrossingsAsWritten(cw, a, v, ns, 0).value
        <==> forall n | n in Neighbors(cw, v) && n in a :: Compatible(cw, v, a[v], n, a[n])
  {
    if CrossingsAsWritten(cw, a, v, ns, 0).value {
      forall n | n in Neighbors(cw, v) && n in a ensures Compatible(cw, v, a[v], n, a[n]) {
        var t :| 0 <= t < |ns| && ns[t] == n;
      }
    }
  }

  /** Whenever the as-written check returns instead of raising, its answer
      tells whether the slots it visits from `k` on are all consistent. */
  lemma {:induction false} AsWrittenDecidesWhenItReturns(cw: Crossword, a: Assignment, order: seq<Variable>, nbrs: map<Variable, seq<Variable>>, k: nat, bound: bool)
    requires WellFormed(cw) && k <= |order| && VisitOrders(cw, a, order, nbrs)
    requires ConsistentAsWritten(cw, a, order, nbrs, k, bound).Success?
    ensures ConsistentAsWritten(cw, a, order, nbrs, k, bound).value
        <==> forall t | k <= t < |order| :: SlotConsistent(cw, a, order[t])
    decreases |order| - k
  {
    if k < |order| {
      var v := order[k];
      if v.length == |a[v]| {
        CrossingsDecide(cw, a, v, nbrs[v]);
        if CrossingsAsWritten(cw, a, v, nbrs[v], 0).value
          && !(!bound && nbrs[v] == [])
          && !(exists u | u in a && u != v :: a[u] == a[v]) {
          AsWrittenDecidesWhenItReturns(cw, a, order, nbrs, k + 1, bound || nbrs[v] != []);
          assert SlotConsistent(cw, a, v);
        }
      }
    }
  }

  /** A single slot with no crossings, bound to a word of its length: the
      intended predicate holds, yet the as-written check raises
      `UnboundLocalError`. This is the one-slot puzzle with one open row of
      three cells. */
  lemma LoneSlotRaises()
    ensures var v := Variable(0, 0, Across, 3);
            var cw := Crossword(1, 3, {v}, {"CAT", "DOG", "ABC"}, map[]);
            var a := map[v := "CAT"];
            && Consistent(cw, a)
            && ConsistentAsWritten(cw, a, [v], map[v := []], 0, false) == Failure(UnboundLocalNeighbor)
  {
    var v := Variable(0, 0, Across, 3);
    var cw := Crossword(1, 3, {v}, {"CAT", "DOG", "ABC"}, map[]);
    var a := map[v := "CAT"];
    assert Neighbors(cw, v) == {};
    assert forall u | u in a :: u == v;
  }

  /** An across slot and a down slot crossing at the across slot's last
      cell, with the down slot bound to the empty word and the across slot
      visited first: the assignment is not consistent, yet the as-written
      check raises `IndexError` instead of returning false, because it reads
      the down slot's letter before checking that slot's length. */
  lemma ShortNeighborRaises()
    ensures var x, y := Variable(0, 0, Across, 3), Variable(0, 2, Down, 3);
            var cw := Crossword(3, 3, {x, y}, {"CAT", "TOE"}, map[(x, y) := (2, 0), (y, x) := (0, 2)]);
            var a := map[x := "CAT", y := ""];
            && WellFormed(cw)
            && !Consistent(cw, a)
            && ConsistentAsWritten(cw, a, [x, y], map[x := [y], y := [x]], 0, false) == Failure(WordIndexOutOfRange)
  {
    var x, y := Variable(0, 0, Across, 3), Variable(0, 2, Down, 3);
    var cw := Crossword(3, 3, {x, y}, {"CAT", "TOE"}, map[(x, y) := (2, 0), (y, x) := (0, 2)]);
    var a := map[x := "CAT", y := ""];
    assert Neighbors(cw, x) == {y};
    assert Neighbors(cw, y) == {x};
    assert |a[y]| != y.length;
  }
}
