/**
 * Rows of the two streams of an AS-OF join, the keyed index the join builds
 * over the slave stream, and the AS-OF match that index must answer with.
 *
 * A row's identifier is its position in its stream: the row cursors hand out
 * identifiers in stream order, and the join only stores and replays them.
 */
module Rows {

  /** Java's 64-bit `long`, the type of timestamps. */
  newtype i64 = x: int | -0x8000_0000_0000_0000 <= x < 0x8000_0000_0000_0000

  /** Long.MIN_VALUE. */
  const LongMin: i64 := -0x8000_0000_0000_0000

  /** The identifier a record reports before its cursor has produced any row. */
  const Unpositioned: int := -1

  datatype Option<T> = None | Some(value: T)

  /** A row as the join sees it: the value of its stream's designated timestamp
      column and the join key its key sink writes into the map key. */
  datatype Row<K> = Row(ts: i64, key: K)

  /** Timestamps never decrease along the stream. */
  predicate Sorted<K>(rows: seq<Row<K>>)
  {
    forall i, j :: 0 <= i < j < |rows| ==> rows[i].ts <= rows[j].ts
  }

  /** The keyed map after upserting rows[lo..hi) into `m` in stream order: each
      row writes its own identifier under its key. */
  function Fold<K>(m: map<K, int>, rows: seq<Row<K>>, lo: nat, hi: nat): (r: map<K, int>)
    requires lo <= hi <= |rows|
    decreases hi - lo
  {
    if hi == lo then m else Fold(m, rows, lo, hi - 1)[rows[hi - 1].key := hi - 1]
  }

  /** Upserting overwrites: after the fold every key a row wrote maps to the last
      row, in stream order, that carries it, and every other key keeps its value. */
  lemma {:induction false} FoldOverwrites<K>(m: map<K, int>, rows: seq<Row<K>>, lo: nat, hi: nat)
    requires lo <= hi <= |rows|
    ensures var r := Fold(m, rows, lo, hi);
            && m.Keys <= r.Keys
            && (forall k :: k in r ==> (lo <= r[k] < hi && rows[r[k]].key == k) || (k in m && r[k] == m[k]))
            && (forall i {:trigger r[rows[i].key]} :: lo <= i < hi ==>
                  rows[i].key in r && i <= r[rows[i].key] < hi && rows[r[rows[i].key]].key == rows[i].key)
    decreases hi - lo
  {
    if hi > lo {
      FoldOverwrites(m, rows, lo, hi - 1);
      var prev := Fold(m, rows, lo, hi - 1);
      var last := rows[hi - 1].key;
      var r := prev[last := hi - 1];
      assert Fold(m, rows, lo, hi) == r;
      forall i | lo <= i < hi
        ensures rows[i].key in r && i <= r[rows[i].key] < hi && rows[r[rows[i].key]].key == rows[i].key
      {
        if rows[i].key != last {
          assert r[rows[i].key] == prev[rows[i].key];
        }
      }
    }
  }

  /** The map holding the first n rows of a stream. */
  function Index<K>(rows: seq<Row<K>>, n: nat): (r: map<K, int>)
    requires n <= |rows|
  {
    Fold(map[], rows, 0, n)
  }

  /** The index holds every key seen among the first n rows, each mapped to the
      last of those rows that carries it, and nothing else. */
  lemma IndexFacts<K>(rows: seq<Row<K>>, n: nat)
    requires n <= |rows|
    ensures var m := Index(rows, n);
            && (forall k :: k in m ==> 0 <= m[k] < n && rows[m[k]].key == k)
            && (forall i {:trigger m[rows[i].key]} :: 0 <= i < n ==> rows[i].key in m && i <= m[rows[i].key])
  {
    FoldOverwrites(map[], rows, 0, n);
  }

  /** Folding rows in two consecutive batches is folding them in one. */
  lemma {:induction false} FoldAppend<K>(m: map<K, int>, rows: seq<Row<K>>, lo: nat, mid: nat, hi: nat)
    requires lo <= mid <= hi <= |rows|
    ensures Fold(Fold(m, rows, lo, mid), rows, mid, hi) == Fold(m, rows, lo, hi)
    decreases hi - mid
  {
    if hi > mid {
      var folded := Fold(m, rows, lo, mid);
      var k := rows[hi - 1].key;
      calc {
        Fold(folded, rows, mid, hi);
        Fold(folded, rows, mid, hi - 1)[k := hi - 1];
        { FoldAppend(m, rows, lo, mid, hi - 1); }
        Fold(m, rows, lo, hi - 1)[k := hi - 1];
        Fold(m, rows, lo, hi);
      }
    }
  }

  /** Folding the last row of a prefix once more changes nothing. */
  lemma RefoldLast<K>(rows: seq<Row<K>>, n: nat)
    requires 0 < n <= |rows|
    ensures Index(rows, n)[rows[n - 1].key := n - 1] == Index(rows, n)
  {
    assert Index(rows, n) == Index(rows, n - 1)[rows[n - 1].key := n - 1];
  }

  /** The position of the first row at or after `from` whose timestamp is past t,
      or |rows| when there is none: where a catch-up starting at `from` stops. */
  function CatchUpStop<K>(rows: seq<Row<K>>, from: nat, t: i64): (n: nat)
    requires from <= |rows|
    ensures from <= n <= |rows|
    ensures forall i :: from <= i < n ==> rows[i].ts <= t
    ensures n < |rows| ==> t < rows[n].ts
    decreases |rows| - from
  {
    if from == |rows| || t < rows[from].ts then from else CatchUpStop(rows, from + 1, t)
  }

  /** The stop position is the only one with those two properties. */
  lemma CatchUpStopUnique<K>(rows: seq<Row<K>>, from: nat, n: nat, t: i64)
    requires from <= n <= |rows|
    requires forall i :: from <= i < n ==> rows[i].ts <= t
    requires n < |rows| ==> t < rows[n].ts
    ensures CatchUpStop(rows, from, t) == n
  {
    var c := CatchUpStop(rows, from, t);
    if c < n {
      assert false;
    } else if c > n {
      assert false;
    }
  }

  /** The AS-OF match of key k at time t: the last row, in stream order, that
      carries key k and a timestamp at or before t; None when no row does. */
  function AsOf<K(==)>(rows: seq<Row<K>>, k: K, t: i64): (r: Option<int>)
    decreases |rows|
  {
    if rows == [] then None
    else if rows[|rows| - 1].key == k && rows[|rows| - 1].ts <= t then Some(|rows| - 1)
    else AsOf(rows[..|rows| - 1], k, t)
  }

  /** The AS-OF match is a row of key k at or before t, and every later row of
      key k is past t; with no match, every row of key k is past t. */
  lemma {:induction false} AsOfFacts<K>(rows: seq<Row<K>>, k: K, t: i64)
    ensures var r := AsOf(rows, k, t);
            && (r.Some? ==> 0 <= r.value < |rows| && rows[r.value].key == k && rows[r.value].ts <= t)
            && (r.Some? ==> forall j :: r.value < j < |rows| && rows[j].key == k ==> t < rows[j].ts)
            && (r.None? ==> forall j :: 0 <= j < |rows| && rows[j].key == k ==> t < rows[j].ts)
    decreases |rows|
  {
    if rows != [] && !(rows[|rows| - 1].key == k && rows[|rows| - 1].ts <= t) {
      var init := rows[..|rows| - 1];
      AsOfFacts(init, k, t);
      assert forall j :: 0 <= j < |init| ==> init[j] == rows[j];
    }
  }

  /** On a sorted stream the AS-OF match has the greatest timestamp among the
      rows with key k at or before t, and among rows sharing that timestamp it
      is the last one. */
  lemma AsOfIsLatest<K>(rows: seq<Row<K>>, k: K, t: i64)
    requires Sorted(rows)
    ensures var r := AsOf(rows, k, t);
            (r.Some? ==> 0 <= r.value < |rows|)
            && (r.Some? ==> forall j :: 0 <= j < |rows| && rows[j].key == k && rows[j].ts <= t ==>
                             j <= r.value && rows[j].ts <= rows[r.value].ts)
  {
    AsOfFacts(rows, k, t);
  }

  /** On a sorted stream, the index over the rows before the first one past t
      answers every key with its AS-OF match at t. */
  lemma PrefixIndexIsAsOf<K>(rows: seq<Row<K>>, k: K, t: i64)
    requires Sorted(rows)
    ensures var m := Index(rows, CatchUpStop(rows, 0, t));
            AsOf(rows, k, t) == if k in m then Some(m[k]) else None
  {
    var n := CatchUpStop(rows, 0, t);
    var m := Index(rows, n);
    var a := AsOf(rows, k, t);
    AsOfFacts(rows, k, t);
    IndexFacts(rows, n);
    // every row from n on is past t
    assert forall j :: n <= j < |rows| ==> t < rows[j].ts by {
      forall j | n <= j < |rows| ensures t < rows[j].ts {
        assert rows[n].ts <= rows[j].ts;
      }
    }
    if a.Some? {
      var i := a.value;
      assert i < n;
      assert k in m && i <= m[k];
      assert m[k] == i;
    }
  }
}
