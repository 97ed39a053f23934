/** Mackworth's AC-3 over the crossword's overlap relation (`ac3`). */
module ArcConsistency {
  import opened Wrappers
  import opened Grid
  import opened Domains
  import Collections

  /** Every arc of the queue names two distinct slots of the puzzle. */
  predicate ArcsOk(cw: Crossword, q: seq<Arc>) {
    forall k | 0 <= k < |q| :: q[k].0 in cw.variables && q[k].1 in cw.variables && q[k].0 != q[k].1
  }

  /** Popping the head and appending well-formed arcs keeps a queue well-formed. */
  lemma ArcsOkPopAppend(cw: Crossword, q: seq<Arc>, extra: seq<Arc>)
    requires q != [] && ArcsOk(cw, q) && ArcsOk(cw, extra)
    ensures ArcsOk(cw, q[1..] + extra)
  {
    var r := q[1..] + extra;
    forall k | 0 <= k < |r| ensures r[k].0 in cw.variables && r[k].1 in cw.variables && r[k].0 != r[k].1 {
      if k < |q| - 1 {
        assert r[k] == q[k + 1];
      } else {
        assert r[k] == extra[k - |q| + 1];
      }
    }
  }

  /** Every pair of slots is arc-consistent except possibly those still queued. */
  ghost predicate ConsistentExcept(cw: Crossword, d: Domains, q: seq<Arc>) {
    forall x, y | x in d && y in d && (x, y) !in q :: ArcConsistent(cw, d, x, y)
  }

  /** The default queue: `(x, y)` for every slot `x` and every neighbour `y`
      of `x`, in an unspecified order. */
  method AllArcs(cw: Crossword) returns (q: seq<Arc>)
    requires WellFormed(cw)
    ensures ArcsOk(cw, q)
    ensures forall x, y | x in cw.variables && y in Neighbors(cw, x) :: (x, y) in q
    ensures forall a: Arc | a in q :: a.0 in cw.variables && a.1 in Neighbors(cw, a.0)
  {
    var all := set x, y | x in cw.variables && y in Neighbors(cw, x) :: (x, y);
    q := Collections.SetToSeq(all);
    forall a: Arc | a in q ensures a.0 in cw.variables && a.1 in Neighbors(cw, a.0) {
      assert a in all;
    }
    forall k | 0 <= k < |q| ensures q[k].0 in cw.variables && q[k].1 in cw.variables && q[k].0 != q[k].1 {
      assert q[k] in all;
    }
  }

  /** With every crossing arc queued, the closure invariant holds trivially. */
  lemma AllArcsQueued(cw: Crossword, d: Domains, q: seq<Arc>)
    requires WellFormed(cw) && Fits(cw, d)
    requires forall x, y | x in cw.variables && y in Neighbors(cw, x) :: (x, y) in q
    ensures ConsistentExcept(cw, d, q)
  {
    forall x, y | x in d && y in d && (x, y) !in q ensures ArcConsistent(cw, d, x, y) {
      NeighborsAreOverlaps(cw, x, y);
    }
  }

  /** After a real revision of `x` against `y`, the popped queue plus the arcs
      `(z, x)` for the other neighbours `z` of `x` again covers every arc that
      may be inconsistent. The arc `(y, x)` need not be re-queued. */
  lemma RevisionKeepsClosure(cw: Crossword, d: Domains, q: seq<Arc>, x: Variable, y: Variable, requeued: seq<Arc>)
    requires WellFormed(cw) && NodeConsistent(d)
    requires x in d && y in d && x != y
    requires q != [] && q[0] == (x, y)
    requires ConsistentExcept(cw, d, q)
    requires forall z | z in Neighbors(cw, x) && z != y :: (z, x) in requeued
    ensures ConsistentExcept(cw, Revise(cw, d, x, y).0, q[1..] + requeued)
  {
    var r := Revise(cw, d, x, y).0;
    var q' := q[1..] + requeued;
    assert q == [q[0]] + q[1..];
    forall a, b | a in r && b in r && (a, b) !in q' ensures ArcConsistent(cw, r, a, b) {
      if a == x && b == y {
      } else if a == y && b == x {
        assert (y, x) !in q;
        ReviseKeepsReverseArc(cw, d, x, y);
      } else if b == x {
        NeighborsAreOverlaps(cw, a, x);
        NeighborsAreOverlaps(cw, x, a);
        assert Overlap(cw, a, x).None?;
      } else {
        assert (a, b) !in q;
        assert ArcConsistent(cw, d, a, b);
        assert r[b] == d[b] && r[a] <= d[a];
        if Overlap(cw, a, b).Some? {
          forall wa | wa in r[a] ensures Supported(cw, a, wa, b, r[b]) {
            assert Supported(cw, a, wa, b, d[b]);
          }
        }
      }
    }
  }

  /** Every domain of `d` is a subset of the same slot's domain in `d0`. */
  predicate Shrunk(d0: Domains, d: Domains) {
    d.Keys == d0.Keys && forall v | v in d0 :: d[v] <= d0[v]
  }

  /** No domain that was non-empty in `d0` is empty in `d`. */
  predicate NoneEmptied(d0: Domains, d: Domains)
    requires d.Keys == d0.Keys
  {
    forall v | v in d0 && d0[v] != {} :: d[v] != {}
  }

  /** Every solution drawn from `d0` is still drawn from `d`. */
  ghost predicate KeepsSolutions(cw: Crossword, d0: Domains, d: Domains) {
    forall s | Within(s, d0) && AgreesEverywhere(cw, s) :: Within(s, d)
  }

  /** One `revise` call keeps the loop's invariants relative to the start store `d0`. */
  lemma ReviseStep(cw: Crossword, d0: Domains, d: Domains, x: Variable, y: Variable)
    requires WellFormed(cw) && Fits(cw, d)
    requires x in d && y in d && x != y
    requires Shrunk(d0, d) && KeepsSolutions(cw, d0, d)
    ensures Fits(cw, Revise(cw, d, x, y).0)
    ensures Shrunk(d0, Revise(cw, d, x, y).0)
    ensures KeepsSolutions(cw, d0, Revise(cw, d, x, y).0)
    ensures Revise(cw, d, x, y).1 ==> Entries(Revise(cw, d, x, y).0) < Entries(d)
  {
    var r := Revise(cw, d, x, y).0;
    forall s | Within(s, d0) && AgreesEverywhere(cw, s) ensures Within(s, r) {
      RevisePreservesSolutions(cw, d, x, y, s);
    }
    if Revise(cw, d, x, y).1 {
      ReviseShrinksEntries(cw, d, x, y);
    }
  }

  /** The arcs `(z, x)` for every neighbour `z` of `x` other than `y`, in an
      unspecified order. */
  method Requeue(cw: Crossword, x: Variable, y: Variable) returns (q: seq<Arc>)
    requires WellFormed(cw)
    ensures ArcsOk(cw, q)
    ensures forall z | z in Neighbors(cw, x) && z != y :: (z, x) in q
    ensures forall a: Arc | a in q :: a.1 == x && a.0 in Neighbors(cw, x) && a.0 != y
  {
    var zs := Collections.SetToSeq(Neighbors(cw, x) - {y});
    q := seq(|zs|, k requires 0 <= k < |zs| => (zs[k], x));
    forall z | z in Neighbors(cw, x) && z != y ensures (z, x) in q {
      assert z in zs;
      var k :| 0 <= k < |zs| && zs[k] == z;
      assert q[k] == (z, x);
    }
    forall k | 0 <= k < |q| ensures q[k].0 in cw.variables && q[k].1 in cw.variables && q[k].0 != q[k].1 {
      assert zs[k] in zs;
    }
    forall a: Arc | a in q ensures a.1 == x && a.0 in Neighbors(cw, x) && a.0 != y {
      var k :| 0 <= k < |q| && q[k] == a;
      assert zs[k] in zs;
    }
  }

  /** The loop invariant of `ac3`'s `while` loop, relative to the start
      store `d0`; `tracking` says whether the start queue covered every arc
      that was not yet consistent. */
  ghost predicate DrainInvariant(cw: Crossword, d0: Domains, d: Domains, queue: seq<Arc>, tracking: bool) {
    && WellFormed(cw)
    && Fits(cw, d)
    && ArcsOk(cw, queue)
    && Shrunk(d0, d)
    && NoneEmptied(d0, d)
    && (tracking ==> ConsistentExcept(cw, d, queue))
    && KeepsSolutions(cw, d0, d)
  }

  /** A real revision that leaves `x` non-empty, followed by re-queuing the
      arcs into `x`, keeps the invariant and shrinks the store. */
  lemma RevisedStep(cw: Crossword, d0: Domains, d: Domains, queue: seq<Arc>, tracking: bool, requeued: seq<Arc>)
    requires DrainInvariant(cw, d0, d, queue, tracking) && queue != []
    requires Revise(cw, d, queue[0].0, queue[0].1).1
    requires Revise(cw, d, queue[0].0, queue[0].1).0[queue[0].0] != {}
    requires ArcsOk(cw, requeued)
    requires forall z | z in Neighbors(cw, queue[0].0) && z != queue[0].1 :: (z, queue[0].0) in requeued
    ensures DrainInvariant(cw, d0, Revise(cw, d, queue[0].0, queue[0].1).0, queue[1..] + requeued, tracking)
    ensures Entries(Revise(cw, d, queue[0].0, queue[0].1).0) < Entries(d)
  {
    var x, y := queue[0].0, queue[0].1;
    ReviseStep(cw, d0, d, x, y);
    if tracking {
      RevisionKeepsClosure(cw, d, queue, x, y, requeued);
    }
    ArcsOkPopAppend(cw, queue, requeued);
  }

  /** A revision that changes nothing just pops the queue. */
  lemma IdleStep(cw: Crossword, d0: Domains, d: Domains, queue: seq<Arc>, tracking: bool)
    requires DrainInvariant(cw, d0, d, queue, tracking) && queue != []
    requires !Revise(cw, d, queue[0].0, queue[0].1).1
    ensures DrainInvariant(cw, d0, d, queue[1..], tracking)
  {
    var x, y := queue[0].0, queue[0].1;
    assert ArcConsistent(cw, d, x, y);
    assert queue == [queue[0]] + queue[1..];
    ArcsOkPopAppend(cw, queue, []);
    assert queue[1..] + [] == queue[1..];
  }

  /** A revision that empties `x` empties a domain that was not empty. */
  lemma EmptyingStep(cw: Crossword, d0: Domains, d: Domains, queue: seq<Arc>, tracking: bool)
    requires DrainInvariant(cw, d0, d, queue, tracking) && queue != []
    requires Revise(cw, d, queue[0].0, queue[0].1).1
    requires Revise(cw, d, queue[0].0, queue[0].1).0[queue[0].0] == {}
    ensures var r := Revise(cw, d, queue[0].0, queue[0].1).0;
      Fits(cw, r) && Shrunk(d0, r) && KeepsSolutions(cw, d0, r)
      && exists v | v in d0 :: d0[v] != {} && r[v] == {}
  {
    var x, y := queue[0].0, queue[0].1;
    ReviseStep(cw, d0, d, x, y);
    assert d[x] != {} && d[x] <= d0[x];
  }

  /** The `while` loop of `ac3`: pops arcs, revises, and on a real revision
      either fails on an emptied domain or re-queues the arcs into `x`. */
  method Drain(cw: Crossword, d0: Domains, q0: seq<Arc>) returns (ok: bool, d: Domains)
    requires WellFormed(cw) && Fits(cw, d0) && ArcsOk(cw, q0)
    ensures Fits(cw, d) && Shrunk(d0, d) && KeepsSolutions(cw, d0, d)
    ensures ok ==> NoneEmptied(d0, d)
    ensures !ok ==> exists v | v in d0 :: d0[v] != {} && d[v] == {}
    ensures ok && ConsistentExcept(cw, d0, q0) ==> AllArcConsistent(cw, d)
  {
    var queue := q0;
    ghost var tracking := ConsistentExcept(cw, d0, queue);
    d := d0;
    while |queue| != 0
      invariant DrainInvariant(cw, d0, d, queue, tracking)
      decreases Entries(d), |queue|
    {
      var x, y := queue[0].0, queue[0].1;
      var revised := Revise(cw, d, x, y);
      if revised.1 {
        if revised.0[x] == {} {
          EmptyingStep(cw, d0, d, queue, tracking);
          d := revised.0;
          ok := false;
          return;
        }
        var requeued := Requeue(cw, x, y);
        RevisedStep(cw, d0, d, queue, tracking, requeued);
        d := revised.0;
        queue := queue[1..] + requeued;
      } else {
        IdleStep(cw, d0, d, queue, tracking);
        queue := queue[1..];
      }
    }
    ok := true;
  }

  /** `ac3(arcs)`. `arcs` is None, or the caller's list; an empty list, like
      None, seeds the queue with every arc. Returns false exactly when some
      domain that was not empty has been emptied; every domain only shrinks;
      no solution of the puzzle is ever pruned; and when every arc that was
      not already consistent was queued at the start (always so for the
      default queue), a true result leaves every arc consistent. */
  method AC3(cw: Crossword, d0: Domains, arcs: Option<seq<Arc>>) returns (ok: bool, d: Domains)
    requires WellFormed(cw) && Fits(cw, d0)
    requires arcs.Some? ==> ArcsOk(cw, arcs.value)
    ensures Fits(cw, d)
    ensures forall v | v in d0 :: d[v] <= d0[v]
    ensures !ok <==> exists v | v in d0 :: d0[v] != {} && d[v] == {}
    ensures ok && (arcs.None? || arcs == Some([])) ==> AllArcConsistent(cw, d)
    ensures ok && arcs.Some? && ConsistentExcept(cw, d0, arcs.value) ==> AllArcConsistent(cw, d)
    ensures forall s | Within(s, d0) && AgreesEverywhere(cw, s) :: Within(s, d)
  {
    var queue: seq<Arc>;
    if arcs.Some? && arcs.value != [] {
      queue := arcs.value;
    } else {
      queue := AllArcs(cw);
      AllArcsQueued(cw, d0, queue);
    }
    ok, d := Drain(cw, d0, queue);
  }
}
