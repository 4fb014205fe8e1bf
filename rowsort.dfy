/**
 * The ordering behind sort_it in rref/helpers/mm.py: a stable sort of the rows
 * by their first entry, descending unless asked otherwise.
 */
module RowSort {
  import opened Matrices

  /** Every row has a first entry to sort by. */
  predicate Keyed(s: seq<Row>) {
    forall i :: 0 <= i < |s| ==> |s[i]| > 0
  }

  /** x must come strictly before y: a larger first entry when descending, a smaller one otherwise. */
  predicate Ahead(x: Row, y: Row, descending: bool)
    requires |x| > 0 && |y| > 0
  {
    if descending then x[0] > y[0] else x[0] < y[0]
  }

  /** No row is strictly ahead of an earlier one. */
  predicate Ordered(s: seq<Row>, descending: bool)
    requires Keyed(s)
  {
    forall i, j :: 0 <= i < j < |s| ==> !Ahead(s[j], s[i], descending)
  }

  /** Places x after the rows strictly ahead of it and before all the others. */
  function Insert(x: Row, s: seq<Row>, descending: bool): (r: seq<Row>)
    requires |x| > 0 && Keyed(s)
    ensures |r| == |s| + 1 && Keyed(r)
  {
    if s == [] || !Ahead(s[0], x, descending) then [x] + s
    else
      assert s == [s[0]] + s[1..];
      [s[0]] + Insert(x, s[1..], descending)
  }

  /** `sorted(rows, key=lambda x: x[0], reverse=descending)`, as an insertion sort. */
  function SortRows(s: seq<Row>, descending: bool): (r: seq<Row>)
    requires Keyed(s)
    ensures |r| == |s| && Keyed(r)
    ensures multiset(r) == multiset(s)
  {
    if s == [] then []
    else
      assert s == [s[0]] + s[1..];
      InsertMultiset(s[0], SortRows(s[1..], descending), descending);
      Insert(s[0], SortRows(s[1..], descending), descending)
  }

  /** Insert adds exactly one copy of x and loses no row. */
  lemma {:induction false} InsertMultiset(x: Row, s: seq<Row>, descending: bool)
    requires |x| > 0 && Keyed(s)
    ensures multiset(Insert(x, s, descending)) == multiset(s) + multiset{x}
  {
    if s != [] && Ahead(s[0], x, descending) {
      assert s == [s[0]] + s[1..];
      InsertMultiset(x, s[1..], descending);
    }
  }

  /** Every row of Insert(x, s) is x or a row of s. */
  lemma {:induction false} InsertMembers(x: Row, s: seq<Row>, descending: bool)
    requires |x| > 0 && Keyed(s)
    ensures forall y :: y in Insert(x, s, descending) ==> y == x || y in s
  {
    if s != [] && Ahead(s[0], x, descending) {
      InsertMembers(x, s[1..], descending);
      assert forall y :: y in s[1..] ==> y in s;
    }
  }

  /** Inserting into an ordered sequence keeps it ordered. */
  lemma {:induction false} InsertOrdered(x: Row, s: seq<Row>, descending: bool)
    requires |x| > 0 && Keyed(s) && Ordered(s, descending)
    ensures Ordered(Insert(x, s, descending), descending)
  {
    if s != [] && Ahead(s[0], x, descending) {
      var t := Insert(x, s[1..], descending);
      InsertOrdered(x, s[1..], descending);
      InsertMembers(x, s[1..], descending);
      var r := [s[0]] + t;
      forall k | 0 < k < |r| ensures !Ahead(r[k], s[0], descending) {
        var y := r[k];
        assert y == t[k - 1] && y in t;
        if y != x {
          var p :| 0 <= p < |s[1..]| && s[1..][p] == y;
          assert s[p + 1] == y;
        }
      }
    }
  }

  /** The sorted rows are in order. */
  lemma {:induction false} SortRowsOrdered(s: seq<Row>, descending: bool)
    requires Keyed(s)
    ensures Ordered(SortRows(s, descending), descending)
  {
    if s != [] {
      SortRowsOrdered(s[1..], descending);
      InsertOrdered(s[0], SortRows(s[1..], descending), descending);
    }
  }

  /** The rows whose first entry is k, in their order. */
  function WithKey(s: seq<Row>, k: real): seq<Row>
  {
    if s == [] then []
    else (if |s[0]| > 0 && s[0][0] == k then [s[0]] else []) + WithKey(s[1..], k)
  }

  /** Inserting x adds x to the rows with its key and changes no other key's rows. */
  lemma {:induction false} InsertWithKey(x: Row, s: seq<Row>, descending: bool, k: real)
    requires |x| > 0 && Keyed(s)
    ensures WithKey(Insert(x, s, descending), k) == (if x[0] == k then [x] else []) + WithKey(s, k)
    decreases |s|
  {
    if s == [] || !Ahead(s[0], x, descending) {
      var r := Insert(x, s, descending);
      assert r[1..] == s;
    } else {
      InsertPast(x, s, descending, k);
    }
  }

  /** InsertWithKey when x goes past the first row. */
  lemma {:induction false} InsertPast(x: Row, s: seq<Row>, descending: bool, k: real)
    requires |x| > 0 && Keyed(s) && s != [] && Ahead(s[0], x, descending)
    ensures WithKey(Insert(x, s, descending), k) == (if x[0] == k then [x] else []) + WithKey(s, k)
    decreases |s|, 0
  {
    var t := Insert(x, s[1..], descending);
    var head := if s[0][0] == k then [s[0]] else [];
    var mine := if x[0] == k then [x] else [];
    assert Insert(x, s, descending) == [s[0]] + t;
    assert WithKey([s[0]] + t, k) == head + WithKey(t, k) by {
      WithKeyPrepend(s[0], t, k);
    }
    assert WithKey(s, k) == head + WithKey(s[1..], k) by {
      WithKeyPrepend(s[0], s[1..], k);
      assert [s[0]] + s[1..] == s;
    }
    InsertWithKey(x, s[1..], descending, k);
    // s[0] is strictly ahead of x, so they cannot both have first entry k.
    assert head == [] || mine == [];
  }

  /** WithKey of a row put in front. */
  lemma WithKeyPrepend(y: Row, t: seq<Row>, k: real)
    requires |y| > 0
    ensures WithKey([y] + t, k) == (if y[0] == k then [y] else []) + WithKey(t, k)
  {
    assert ([y] + t)[1..] == t;
  }

  /** Stability: rows with equal first entries keep their original relative order. */
  lemma {:induction false} SortRowsStable(s: seq<Row>, descending: bool, k: real)
    requires Keyed(s)
    ensures WithKey(SortRows(s, descending), k) == WithKey(s, k)
  {
    if s != [] {
      SortRowsStable(s[1..], descending, k);
      InsertWithKey(s[0], SortRows(s[1..], descending), descending, k);
    }
  }
}
