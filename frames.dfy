/** The dataframe operations the table builders chain together, over a
    sequence of rows: `select` (a projection of every row), `distinct`,
    `where`, `monotonically_increasing_id` and `partitionBy`. Row order is
    not part of any table's meaning; the lemmas speak of row sets and row
    multiplicities. */
module Frames {

  predicate NoDuplicates<T(==)>(s: seq<T>) {
    forall i, j :: 0 <= i < j < |s| ==> s[i] != s[j]
  }

  /** The set of rows of s. */
  function Rows<T>(s: seq<T>): set<T> {
    set x | x in s
  }

  /** The set of values h takes on the rows of s. */
  function Image<T(==), U>(s: seq<T>, h: T -> U): set<U> {
    set x | x in s :: h(x)
  }

  /** `select` / `withColumn`: the row-by-row projection f of every row. The
      rows of the result are exactly the projections of the input rows. */
  function Select<R, P>(rows: seq<R>, f: R -> P): (r: seq<P>)
    ensures |r| == |rows|
    ensures forall i :: 0 <= i < |rows| ==> r[i] == f(rows[i])
    ensures Rows(r) == Image(rows, f)
  {
    var r := seq(|rows|, i requires 0 <= i < |rows| => f(rows[i]));
    ProjectionRows(rows, f, r);
    r
  }

  /** `distinct`: every row of s exactly once (first occurrences, in order). */
  function Distinct<T(==,!new)>(s: seq<T>): (r: seq<T>)
    ensures NoDuplicates(r)
    ensures forall x :: x in r <==> x in s
    ensures |r| <= |s|
  {
    if s == [] then []
    else
      var init, last := s[..|s| - 1], s[|s| - 1];
      assert s == init + [last];
      if last in init then Distinct(init) else Distinct(init) + [last]
  }

  /** `where`: the rows that satisfy p, each as often as in the input. */
  function Where<T(==,!new)>(rows: seq<T>, p: T -> bool): (r: seq<T>)
    ensures |r| <= |rows|
    ensures forall x :: x in r <==> x in rows && p(x)
    ensures forall x :: multiset(r)[x] == if p(x) then multiset(rows)[x] else 0
  {
    if rows == [] then []
    else
      var init, last := rows[..|rows| - 1], rows[|rows| - 1];
      assert rows == init + [last];
      if p(last) then Where(init, p) + [last] else Where(init, p)
  }

  /** A row with the surrogate identifier attached to it. */
  datatype Labelled<P> = Labelled(columns: P, id: nat)

  /** `monotonically_increasing_id`, modelled as the row position: every row
      keeps its columns and receives an identifier no other row has. */
  function WithIds<P>(rows: seq<P>): (t: seq<Labelled<P>>)
    ensures |t| == |rows|
    ensures forall i :: 0 <= i < |t| ==> t[i].columns == rows[i]
    ensures forall i, j :: 0 <= i < j < |t| ==> t[i].id != t[j].id
  {
    seq(|rows|, i requires 0 <= i < |rows| => Labelled(rows[i], i))
  }

  /** The rows whose key is k, each as often as in the input. */
  function Partition<T(==,!new), K(==)>(rows: seq<T>, key: T -> K, k: K): (p: seq<T>)
    ensures forall x :: x in p <==> x in rows && key(x) == k
    ensures forall x :: multiset(p)[x] == if key(x) == k then multiset(rows)[x] else 0
  {
    Where(rows, x => key(x) == k)
  }

  /** `partitionBy`: one partition per key value present; partition k holds
      the rows whose key is k. */
  function PartitionBy<T(==,!new), K(==)>(rows: seq<T>, key: T -> K): (parts: map<K, seq<T>>)
    ensures parts.Keys == Image(rows, key)
    ensures forall k :: k in parts ==> parts[k] == Partition(rows, key, k) && parts[k] != []
  {
    var parts := map k | k in Image(rows, key) :: Partition(rows, key, k);
    assert forall k :: k in parts ==> parts[k] != [] by {
      forall k | k in parts ensures parts[k] != [] {
        var x :| x in rows && key(x) == k;
        assert x in parts[k];
      }
    }
    parts
  }

  /** Every row lies in exactly one partition, the one named by its own key;
      every partition row is a table row; and each row occurs in its partition
      as often as in the table, so the partitions together are the table. */
  lemma PartitionByCorrect<T(!new), K>(rows: seq<T>, key: T -> K)
    ensures forall x, k :: x in rows && k in PartitionBy(rows, key) ==> (x in PartitionBy(rows, key)[k] <==> k == key(x))
    ensures forall x :: x in rows ==> key(x) in PartitionBy(rows, key)
    ensures forall k, x :: k in PartitionBy(rows, key) && x in PartitionBy(rows, key)[k] ==> x in rows
    ensures forall k, x :: k in PartitionBy(rows, key) ==>
      multiset(PartitionBy(rows, key)[k])[x] == if key(x) == k then multiset(rows)[x] else 0
  {
    var parts := PartitionBy(rows, key);
    forall x | x in rows ensures key(x) in parts {
      assert key(x) in Image(rows, key);
    }
  }

  /** A duplicate-free sequence has as many elements as its row set. */
  lemma {:induction false} NoDuplicatesSize<T>(s: seq<T>)
    requires NoDuplicates(s)
    ensures |Rows(s)| == |s|
  {
    if s != [] {
      var init, last := s[..|s| - 1], s[|s| - 1];
      assert s == init + [last];
      assert NoDuplicates(init);
      assert last !in init;
      assert Rows(s) == Rows(init) + {last};
      NoDuplicatesSize(init);
    }
  }

  /** `distinct` leaves a duplicate-free sequence unchanged. */
  lemma {:induction false} DistinctOfNoDuplicates<T(!new)>(s: seq<T>)
    requires NoDuplicates(s)
    ensures Distinct(s) == s
  {
    if s != [] {
      var init, last := s[..|s| - 1], s[|s| - 1];
      assert s == init + [last];
      assert NoDuplicates(init);
      assert last !in init;
      DistinctOfNoDuplicates(init);
    }
  }

  /** Running `distinct` twice is the same as running it once. */
  lemma DistinctIdempotent<T(!new)>(s: seq<T>)
    ensures Distinct(Distinct(s)) == Distinct(s)
  {
    DistinctOfNoDuplicates(Distinct(s));
  }

  /** `distinct` keeps the row set and has exactly as many rows as that set. */
  lemma DistinctRows<T(!new)>(s: seq<T>)
    ensures Rows(Distinct(s)) == Rows(s)
    ensures |Distinct(s)| == |Rows(s)|
  {
    NoDuplicatesSize(Distinct(s));
  }

  /** A row-by-row projection has as its rows the projections of the rows. */
  lemma ProjectionRows<R, P>(rows: seq<R>, f: R -> P, r: seq<P>)
    requires |r| == |rows|
    requires forall i :: 0 <= i < |rows| ==> r[i] == f(rows[i])
    ensures Rows(r) == Image(rows, f)
  {
    forall y | y in Rows(r) ensures y in Image(rows, f) {
      var i :| 0 <= i < |r| && r[i] == y;
      assert rows[i] in rows;
    }
    forall y | y in Image(rows, f) ensures y in Rows(r) {
      var x :| x in rows && f(x) == y;
      var i :| 0 <= i < |rows| && rows[i] == x;
      assert r[i] == y;
    }
  }

  /** What h sees of a projection is what h after f sees of the input. */
  lemma SelectImage<R, P, U>(rows: seq<R>, f: R -> P, h: P -> U, g: R -> U)
    requires forall x :: g(x) == h(f(x))
    ensures Image(Select(rows, f), h) == Image(rows, g)
  {
    var r := Select(rows, f);
    forall y | y in Image(r, h) ensures y in Image(rows, g) {
      var i :| 0 <= i < |r| && h(r[i]) == y;
      assert rows[i] in rows;
    }
    forall y | y in Image(rows, g) ensures y in Image(r, h) {
      var x :| x in rows && g(x) == y;
      var i :| 0 <= i < |rows| && rows[i] == x;
      assert r[i] in r;
    }
  }

  /** `distinct` changes no image. */
  lemma DistinctImage<T(!new), U>(s: seq<T>, h: T -> U)
    ensures Image(Distinct(s), h) == Image(s, h)
  {
  }

  /** What h sees of the columns of the labelled rows is what it sees of the rows. */
  lemma WithIdsImage<P, U>(rows: seq<P>, h: P -> U, g: Labelled<P> -> U)
    requires forall l :: g(l) == h(l.columns)
    ensures Image(WithIds(rows), g) == Image(rows, h)
  {
    var t := WithIds(rows);
    forall y | y in Image(rows, h) ensures y in Image(t, g) {
      var x :| x in rows && h(x) == y;
      var i :| 0 <= i < |rows| && rows[i] == x;
      assert t[i] in t;
    }
  }

  /** The shape of the deduplicated dimension tables
      (`select(...).distinct().withColumn(id, monotonically_increasing_id())`):
      its column tuples are exactly the projections of the input rows, no two of
      its rows agree on the columns or on the identifier, and it has one row per
      distinct projection. */
  lemma LabelledDistinct<R, P(!new)>(rows: seq<R>, f: R -> P)
    ensures Image(WithIds(Distinct(Select(rows, f))), (l: Labelled<P>) => l.columns) == Image(rows, f)
    ensures forall i, j :: 0 <= i < j < |WithIds(Distinct(Select(rows, f)))| ==>
      WithIds(Distinct(Select(rows, f)))[i].columns != WithIds(Distinct(Select(rows, f)))[j].columns &&
      WithIds(Distinct(Select(rows, f)))[i].id != WithIds(Distinct(Select(rows, f)))[j].id
    ensures |WithIds(Distinct(Select(rows, f)))| == |Image(rows, f)| <= |rows|
  {
    var d := Distinct(Select(rows, f));
    var id := (p: P) => p;
    WithIdsImage(d, id, (l: Labelled<P>) => l.columns);
    assert Image(d, id) == Rows(d);
    DistinctRows(Select(rows, f));
  }

  /** Filtering a sequence with one row appended keeps that row exactly when
      it satisfies the predicate. */
  lemma WhereSnoc<T(!new)>(s: seq<T>, x: T, p: T -> bool)
    ensures Where(s + [x], p) == if p(x) then Where(s, p) + [x] else Where(s, p)
  {
    var t := s + [x];
    assert t[..|t| - 1] == s && t[|t| - 1] == x;
  }

  /** Filtering distributes over concatenation. */
  lemma {:induction false} WhereAppend<T(!new)>(a: seq<T>, b: seq<T>, p: T -> bool)
    ensures Where(a + b, p) == Where(a, p) + Where(b, p)
  {
    if b == [] {
      assert a + b == a;
      assert Where(a, p) + [] == Where(a, p);
    } else {
      var init, last := b[..|b| - 1], b[|b| - 1];
      assert b == init + [last];
      assert a + b == (a + init) + [last];
      WhereAppend(a, init, p);
      WhereSnocSplit(a, init, last, p);
    }
  }

  /** The step of WhereAppend: with the filter distributing over a + s, it
      distributes over a + (s + [x]). */
  lemma WhereSnocSplit<T(!new)>(a: seq<T>, s: seq<T>, x: T, p: T -> bool)
    requires Where(a + s, p) == Where(a, p) + Where(s, p)
    ensures Where((a + s) + [x], p) == Where(a, p) + Where(s + [x], p)
  {
    WhereSnoc(a + s, x, p);
    WhereSnoc(s, x, p);
    SnocAssociates(Where(a, p), Where(s, p), x, p(x));
  }

  /** Appending x (or not) after u + v is appending it (or not) after v. */
  lemma SnocAssociates<T>(u: seq<T>, v: seq<T>, x: T, keep: bool)
    ensures (if keep then (u + v) + [x] else u + v) == u + (if keep then v + [x] else v)
  {
    if keep {
      assert (u + v) + [x] == u + (v + [x]);
    }
  }

  /** The image of a two-row table is the set of the two rows' images. */
  lemma PairImage<T, U>(a: T, b: T, h: T -> U)
    ensures Image([a, b], h) == {h(a), h(b)}
  {
    assert a in [a, b] && b in [a, b];
  }

  /** Filtering a two-row table in which both rows satisfy the predicate keeps both. */
  lemma WherePair<T(!new)>(a: T, b: T, p: T -> bool)
    requires p(a) && p(b)
    ensures Where([a, b], p) == [a, b]
  {
    WhereSnoc([a], b, p);
    WhereSnoc([], a, p);
    assert [] + [a] == [a] && [a] + [b] == [a, b];
  }

  /** `distinct` keeps both rows of a two-row table whose rows differ. */
  lemma DistinctPair<T(!new)>(a: T, b: T)
    requires a != b
    ensures Distinct([a, b]) == [a, b]
  {
    DistinctOfNoDuplicates([a, b]);
  }
}
