/** Sequence helpers: enumerating a set in an unspecified order, and sorting by a key. */
module Collections {

  /** Lists each element of `s` exactly once, in an unspecified order; this is
      the order in which the source's `for` loops visit a Python set or dict. */
  method SetToSeq<T>(s: set<T>) returns (q: seq<T>)
    ensures multiset(q) == multiset(s)
    ensures forall x :: x in q <==> x in s
    ensures |q| == |s|
  {
    q := [];
    var rest := s;
    while rest != {}
      invariant rest <= s
      invariant multiset(q) + multiset(rest) == multiset(s)
      decreases rest
    {
      var x :| x in rest;
      assert multiset(rest) == multiset(rest - {x}) + multiset{x};
      q := q + [x];
      rest := rest - {x};
    }
    assert forall x :: x in q <==> x in multiset(q);
  }

  /** Every element of `s` has a key. */
  predicate Keyed<T>(s: seq<T>, key: map<T, int>) {
    forall x | x in s :: x in key
  }

  /** `s` is nondecreasing by `key`. */
  predicate SortedBy<T>(s: seq<T>, key: map<T, int>)
    requires Keyed(s, key)
  {
    forall p, q | 0 <= p < q < |s| :: key[s[p]] <= key[s[q]]
  }

  /** Prefixing an element whose key is at most every key of a sorted
      sequence keeps it sorted. */
  lemma PrefixSorted<T>(h: T, s: seq<T>, key: map<T, int>)
    requires h in key && Keyed(s, key) && SortedBy(s, key)
    requires forall k | 0 <= k < |s| :: key[h] <= key[s[k]]
    ensures Keyed([h] + s, key) && SortedBy([h] + s, key)
  {
    var r := [h] + s;
    forall p, q | 0 <= p < q < |r| ensures key[r[p]] <= key[r[q]] {
      assert r[q] == s[q - 1];
      if p > 0 {
        assert r[p] == s[p - 1];
      }
    }
  }

  /** Inserts `x` into a sorted sequence before the first element whose key is
      not smaller, so earlier elements stay ahead of later equal ones. */
  function InsertBy<T>(x: T, s: seq<T>, key: map<T, int>): (r: seq<T>)
    requires x in key && Keyed(s, key) && SortedBy(s, key)
    ensures Keyed(r, key) && SortedBy(r, key)
    ensures multiset(r) == multiset(s) + multiset{x}
  {
    if s == [] || key[x] <= key[s[0]] then
      PrefixSorted(x, s, key);
      [x] + s
    else
      var tail := s[1..];
      assert s == [s[0]] + tail;
      var rest := InsertBy(x, tail, key);
      forall k | 0 <= k < |rest| ensures key[s[0]] <= key[rest[k]] {
        assert rest[k] in multiset(rest);
        if rest[k] != x {
          var t :| 0 <= t < |tail| && tail[t] == rest[k];
          assert s[t + 1] == rest[k];
        }
      }
      PrefixSorted(s[0], rest, key);
      [s[0]] + rest
  }

  /** A stable sort of `s` by `key`, the analogue of Python's `sorted(..., key=...)`. */
  function SortBy<T>(s: seq<T>, key: map<T, int>): (r: seq<T>)
    requires Keyed(s, key)
    ensures Keyed(r, key) && SortedBy(r, key)
    ensures multiset(r) == multiset(s)
  {
    if s == [] then []
    else
      assert s == [s[0]] + s[1..];
      InsertBy(s[0], SortBy(s[1..], key), key)
  }
}
