/**
 * The AS-OF join cursor's progress through its two streams, as values: the
 * state HashJoinRecordCursor carries between calls and what one hasNext does
 * to it. The class in asof_join_light.dfy is proved to follow these functions.
 */
module AsOfJoin {
  import opened Rows

  /** lastSlaveRowID when no slave row is dangling: Long.MIN_VALUE. hasNext tests
      it against Numbers.LONG_NaN; the model takes the two to be the same value. */
  const NoRow: int := -0x8000_0000_0000_0000

  datatype JoinState<K> = JoinState(
    masterNext: nat,          // master rows produced; the master record shows row masterNext - 1
    slaveNext: nat,           // slave rows produced: the slave cursor's iteration position
    slaveAt: int,             // the row the slave record shows; recordAt moves it, not the iteration
    joinKeyMap: map<K, int>,  // join key -> slave row id
    slaveTimestamp: i64,      // timestamp of the last slave row examined
    lastSlaveRowId: int,      // identifier of that row, or NoRow
    hasSlave: bool)           // the outer-join record's match flag

  /** What holds between calls, whatever the timestamps: the slave stream has
      been read up to slaveNext; the last row read is the remembered (dangling)
      row; the map indexes every row read before it and, once the stream is
      drained, that row as well. */
  ghost predicate WellFormed<K>(slave: seq<Row<K>>, st: JoinState<K>)
  {
    && st.slaveNext <= |slave|
    && (st.slaveAt == Unpositioned || 0 <= st.slaveAt < st.slaveNext)
    && (st.slaveNext == 0 ==>
          st.lastSlaveRowId == NoRow && st.slaveTimestamp == LongMin && st.joinKeyMap == map[])
    && (st.slaveNext > 0 ==>
          && st.lastSlaveRowId == st.slaveNext - 1
          && st.slaveTimestamp == slave[st.slaveNext - 1].ts
          && (|| st.joinKeyMap == Index(slave, st.slaveNext - 1)
              || (st.slaveNext == |slave| && st.joinKeyMap == Index(slave, st.slaveNext))))
  }

  /** The state `of` and `toTop` leave: an empty map, nothing seen on either
      stream, no dangling row. The record's match flag is not touched. */
  function Reset<K>(st: JoinState<K>): (r: JoinState<K>)
    ensures r.masterNext == 0 && r.slaveNext == 0 && r.hasSlave == st.hasSlave
  {
    st.(masterNext := 0, slaveNext := 0, slaveAt := Unpositioned, joinKeyMap := map[],
        slaveTimestamp := LongMin, lastSlaveRowId := NoRow)
  }

  /** Whatever was read before, the reset state is consistent with any pair of
      streams and a traversal can start from it. */
  lemma ResetIsReady<K>(master: seq<Row<K>>, slave: seq<Row<K>>, st: JoinState<K>)
    ensures WellFormed(slave, Reset(st)) && Ready(master, slave, Reset(st))
  {
  }

  /** Upserting the dangling row again completes the index of every row read:
      it was either never folded, or folded last. */
  lemma DanglingCompletesIndex<K>(slave: seq<Row<K>>, st: JoinState<K>)
    requires WellFormed(slave, st)
    ensures st.lastSlaveRowId != NoRow ==>
              st.joinKeyMap[slave[st.lastSlaveRowId].key := st.lastSlaveRowId] == Index(slave, st.slaveNext)
    ensures st.lastSlaveRowId == NoRow ==> st.joinKeyMap == Index(slave, st.slaveNext)
  {
    var s := st.slaveNext;
    if s > 0 {
      assert Index(slave, s) == Index(slave, s - 1)[slave[s - 1].key := s - 1];
      if st.joinKeyMap != Index(slave, s - 1) {
        RefoldLast(slave, s);
      }
    }
  }

  /** The catch-up phase of hasNext for master timestamp mt: upsert the dangling
      row if there is one, then every slave row the cursor yields up to the first
      one past mt, which is not inserted but remembered as the new dangling row.
      When the stream runs dry, the row the slave record shows is remembered. */
  function CatchUp<K>(slave: seq<Row<K>>, st: JoinState<K>, mt: i64): (r: JoinState<K>)
    requires WellFormed(slave, st)
    // the slave stream is only read forward; the master side and the match flag are not touched
    ensures st.slaveNext <= r.slaveNext <= |slave|
    ensures r.masterNext == st.masterNext && r.hasSlave == st.hasSlave
  {
    var dangling := st.lastSlaveRowId != NoRow;
    var m0 := if dangling then st.joinKeyMap[slave[st.lastSlaveRowId].key := st.lastSlaveRowId]
              else st.joinKeyMap;
    var at0 := if dangling then st.lastSlaveRowId else st.slaveAt;
    var n := CatchUpStop(slave, st.slaveNext, mt);
    var m1 := Fold(m0, slave, st.slaveNext, n);
    if n < |slave| then
      // stopped on row n, past mt
      st.(slaveNext := n + 1, slaveAt := n, joinKeyMap := m1,
          slaveTimestamp := slave[n].ts, lastSlaveRowId := n)
    else if st.slaveNext < n then
      // drained after reading at least one row
      st.(slaveNext := n, slaveAt := n - 1, joinKeyMap := m1,
          slaveTimestamp := slave[n - 1].ts, lastSlaveRowId := n - 1)
    else
      // drained without reading a row
      st.(slaveAt := at0, joinKeyMap := m1, lastSlaveRowId := at0)
  }

  /** After the catch-up the map indexes every slave row before the first one
      past mt, the dangling row included; that row, when there is one, is read
      and remembered with its timestamp; and the state is again well formed. */
  lemma CatchUpFacts<K>(slave: seq<Row<K>>, st: JoinState<K>, mt: i64)
    requires WellFormed(slave, st) && 0 < |slave|
    ensures var r := CatchUp(slave, st, mt);
            var n := CatchUpStop(slave, st.slaveNext, mt);
            && WellFormed(slave, r)
            && r.joinKeyMap == Index(slave, n)
            && r.slaveNext == (if n < |slave| then n + 1 else |slave|)
            && (n < |slave| ==> r.slaveTimestamp == slave[n].ts && r.lastSlaveRowId == n)
            && r.masterNext == st.masterNext && r.hasSlave == st.hasSlave
  {
    DanglingCompletesIndex(slave, st);
    FoldAppend(map[], slave, 0, st.slaveNext, CatchUpStop(slave, st.slaveNext, mt));
  }

  /** The dangling row goes in first: after the catch-up it stays indexed
      unless a later row of the same key replaced it. */
  lemma DanglingGoesFirst<K>(slave: seq<Row<K>>, st: JoinState<K>, mt: i64)
    requires WellFormed(slave, st) && 0 < |slave| && st.lastSlaveRowId != NoRow
    ensures var r := CatchUp(slave, st, mt);
            var d := st.lastSlaveRowId;
            0 <= d < |slave| && slave[d].key in r.joinKeyMap && d <= r.joinKeyMap[slave[d].key]
  {
    CatchUpFacts(slave, st, mt);
    IndexFacts(slave, CatchUpStop(slave, st.slaveNext, mt));
  }

  /** The master lookup: never inserts; on a hit the slave record moves to the
      stored row and the record reports a match, on a miss only the flag drops. */
  function Lookup<K>(st: JoinState<K>, key: K): (r: JoinState<K>)
    ensures r.hasSlave <==> key in st.joinKeyMap
    ensures r.hasSlave ==> r.slaveAt == st.joinKeyMap[key]
    ensures !r.hasSlave ==> r.slaveAt == st.slaveAt
    ensures r.(slaveAt := st.slaveAt, hasSlave := st.hasSlave) == st
  {
    if key in st.joinKeyMap then st.(slaveAt := st.joinKeyMap[key], hasSlave := true)
    else st.(hasSlave := false)
  }

  /** Every row the map stores has already been read from the slave stream. */
  lemma MapRowsRead<K>(slave: seq<Row<K>>, st: JoinState<K>)
    requires WellFormed(slave, st)
    ensures forall k :: k in st.joinKeyMap ==> 0 <= st.joinKeyMap[k] < st.slaveNext
  {
    if st.slaveNext > 0 {
      IndexFacts(slave, st.slaveNext - 1);
      IndexFacts(slave, st.slaveNext);
    }
  }

  /** The lookup only moves the slave record to a row already read. */
  lemma LookupKeepsWellFormed<K>(slave: seq<Row<K>>, st: JoinState<K>, key: K)
    requires WellFormed(slave, st)
    ensures WellFormed(slave, Lookup(st, key))
  {
    MapRowsRead(slave, st);
  }

  /** How far the master side has advanced does not bear on the slave side. */
  lemma WellFormedIgnoresMaster<K>(slave: seq<Row<K>>, st: JoinState<K>, masterNext: nat)
    requires WellFormed(slave, st)
    ensures WellFormed(slave, st.(masterNext := masterNext))
  {
  }

  /** What hasNext does with a master row it has just produced: catch up when
      the remembered slave timestamp is not past the row's, then look the row's
      key up. */
  function JoinRow<K>(slave: seq<Row<K>>, st: JoinState<K>, row: Row<K>): (r: JoinState<K>)
    requires 0 < |slave| && WellFormed(slave, st)
    ensures WellFormed(slave, r) && r.masterNext == st.masterNext
    // the lookup reports a match exactly when the key is in the map, and shows its row
    ensures r.hasSlave <==> row.key in r.joinKeyMap
    ensures r.hasSlave ==> r.slaveAt == r.joinKeyMap[row.key]
  {
    if st.slaveTimestamp <= row.ts then
      var st1 := CatchUp(slave, st, row.ts);
      CatchUpFacts(slave, st, row.ts);
      LookupKeepsWellFormed(slave, st1, row.key);
      Lookup(st1, row.key)
    else
      LookupKeepsWellFormed(slave, st, row.key);
      Lookup(st, row.key)
  }

  /** One hasNext that finds a master row. */
  function Advance<K>(master: seq<Row<K>>, slave: seq<Row<K>>, st: JoinState<K>): (r: JoinState<K>)
    requires st.masterNext < |master| && 0 < |slave| && WellFormed(slave, st)
    ensures WellFormed(slave, r) && r.masterNext == st.masterNext + 1
    ensures r.hasSlave <==> master[st.masterNext].key in r.joinKeyMap
    ensures r.hasSlave ==> r.slaveAt == r.joinKeyMap[master[st.masterNext].key]
  {
    WellFormedIgnoresMaster(slave, st, st.masterNext + 1);
    JoinRow(slave, st.(masterNext := st.masterNext + 1), master[st.masterNext])
  }

  /** The two phases of hasNext. A remembered slave row past the master
      timestamp skips the catch-up: the map, the slave position and the
      dangling row stay as they were. Otherwise the map ends up indexing every
      slave row before the first one past the master timestamp (the dangling
      row first), and the stream has been read through that row. */
  lemma AdvanceProgress<K>(master: seq<Row<K>>, slave: seq<Row<K>>, st: JoinState<K>)
    requires st.masterNext < |master| && 0 < |slave| && WellFormed(slave, st)
    ensures var r := Advance(master, slave, st);
            master[st.masterNext].ts < st.slaveTimestamp ==>
              && r.slaveNext == st.slaveNext && r.joinKeyMap == st.joinKeyMap
              && r.slaveTimestamp == st.slaveTimestamp && r.lastSlaveRowId == st.lastSlaveRowId
    ensures var r := Advance(master, slave, st);
            var n := CatchUpStop(slave, st.slaveNext, master[st.masterNext].ts);
            st.slaveTimestamp <= master[st.masterNext].ts ==>
              && r.joinKeyMap == Index(slave, n)
              && r.slaveNext == (if n < |slave| then n + 1 else |slave|)
              && (n < |slave| ==> r.slaveTimestamp == slave[n].ts && r.lastSlaveRowId == n)
  {
    if st.slaveTimestamp <= master[st.masterNext].ts {
      WellFormedIgnoresMaster(slave, st, st.masterNext + 1);
      CatchUpFacts(slave, st.(masterNext := st.masterNext + 1), master[st.masterNext].ts);
    }
  }

  /** The state is caught up with time t: the map indexes exactly the slave rows
      before the first one past t, and the stream has been read through that row
      (the dangling row), or to its end when there is none. */
  ghost predicate Caught<K>(slave: seq<Row<K>>, st: JoinState<K>, t: i64)
  {
    var n := CatchUpStop(slave, 0, t);
    && st.joinKeyMap == Index(slave, n)
    && st.slaveNext == (if n < |slave| then n + 1 else n)
  }

  /** A state caught up with t shows the lookup no slave row past t. */
  lemma CaughtHidesLater<K>(slave: seq<Row<K>>, st: JoinState<K>, t: i64)
    requires Caught(slave, st, t)
    ensures forall k :: k in st.joinKeyMap ==> 0 <= st.joinKeyMap[k] < |slave| && slave[st.joinKeyMap[k]].ts <= t
  {
    IndexFacts(slave, CatchUpStop(slave, 0, t));
  }

  /** When every row before s is at or before t, a catch-up from s stops where
      one from the start of the stream would. */
  lemma StopFromPrefix<K>(rows: seq<Row<K>>, s: nat, t: i64)
    requires s <= |rows|
    requires forall i :: 0 <= i < s ==> rows[i].ts <= t
    ensures CatchUpStop(rows, s, t) == CatchUpStop(rows, 0, t)
  {
    CatchUpStopUnique(rows, 0, CatchUpStop(rows, s, t), t);
  }

  /** From a fresh state, or one caught up with an earlier master timestamp,
      hasNext catches up with the new master timestamp: no slave row past it is
      visible to the lookup, and every row before the first one past it is. */
  lemma AdvanceCatchesUp<K>(master: seq<Row<K>>, slave: seq<Row<K>>, st: JoinState<K>, t: i64)
    requires st.masterNext < |master| && 0 < |slave| && WellFormed(slave, st)
    requires st.slaveNext == 0 || (Caught(slave, st, t) && t <= master[st.masterNext].ts)
    ensures Caught(slave, Advance(master, slave, st), master[st.masterNext].ts)
  {
    var mt := master[st.masterNext].ts;
    var s := st.slaveNext;
    AdvanceProgress(master, slave, st);
    if s != 0 {
      var n0 := CatchUpStop(slave, 0, t);
      if st.slaveTimestamp <= mt {
        forall i | 0 <= i < s ensures slave[i].ts <= mt {
          if i < n0 {
            assert slave[i].ts <= t;
          }
        }
        StopFromPrefix(slave, s, mt);
      } else {
        CatchUpStopUnique(slave, 0, n0, mt);
      }
    }
  }

  /** What the outer-join record shows on the slave side: a slave row, or None
      when it substitutes nulls. */
  function Matched<K>(st: JoinState<K>): (r: Option<int>)
  {
    if st.hasSlave then Some(st.slaveAt) else None
  }

  /** The matches a traversal reports from `st` on: one per remaining master row. */
  function Pass<K>(master: seq<Row<K>>, slave: seq<Row<K>>, st: JoinState<K>): (p: seq<Option<int>>)
    requires WellFormed(slave, st) && st.masterNext <= |master|
    requires 0 < |slave| || st.masterNext == |master|
    ensures |p| == |master| - st.masterNext
    decreases |master| - st.masterNext
  {
    if st.masterNext == |master| then []
    else
      var r := Advance(master, slave, st);
      [Matched(r)] + Pass(master, slave, r)
  }

  /** On a sorted slave stream, hasNext from a fresh or caught-up state reports
      the AS-OF match of the new master row and leaves the state caught up with
      its timestamp. */
  lemma AdvanceMatchesAsOf<K>(master: seq<Row<K>>, slave: seq<Row<K>>, st: JoinState<K>, t: i64)
    requires Sorted(slave) && st.masterNext < |master| && 0 < |slave| && WellFormed(slave, st)
    requires st.slaveNext == 0 || (Caught(slave, st, t) && t <= master[st.masterNext].ts)
    ensures var r := Advance(master, slave, st);
            && Caught(slave, r, master[st.masterNext].ts)
            && Matched(r) == AsOf(slave, master[st.masterNext].key, master[st.masterNext].ts)
  {
    AdvanceCatchesUp(master, slave, st, t);
    PrefixIndexIsAsOf(slave, master[st.masterNext].key, master[st.masterNext].ts);
  }

  /** The reference answer: the AS-OF match of every master row from j on. */
  function AsOfPass<K(==)>(master: seq<Row<K>>, slave: seq<Row<K>>, j: nat): (p: seq<Option<int>>)
    requires j <= |master|
    ensures |p| == |master| - j
    decreases |master| - j
  {
    if j == |master| then [] else [AsOf(slave, master[j].key, master[j].ts)] + AsOfPass(master, slave, j + 1)
  }

  /** Entry i of the reference answer from j on is the AS-OF match of master row i. */
  lemma {:induction false} AsOfPassAt<K>(master: seq<Row<K>>, slave: seq<Row<K>>, j: nat, i: nat)
    requires j <= i < |master|
    ensures AsOfPass(master, slave, j)[i - j] == AsOf(slave, master[i].key, master[i].ts)
    decreases i - j
  {
    if i > j {
      AsOfPassAt(master, slave, j + 1, i);
    }
  }

  /** A traversal can take its next step from here: the state is fresh, or
      caught up with the timestamp of the master row it last produced. */
  ghost predicate Ready<K>(master: seq<Row<K>>, slave: seq<Row<K>>, st: JoinState<K>)
  {
    && WellFormed(slave, st) && st.masterNext <= |master|
    && (st.slaveNext == 0 || (0 < st.masterNext && Caught(slave, st, master[st.masterNext - 1].ts)))
  }

  /** Over sorted streams, one hasNext from a ready state reports the AS-OF
      match of the new master row and leaves the state ready. */
  lemma StepIsAsOf<K>(master: seq<Row<K>>, slave: seq<Row<K>>, st: JoinState<K>)
    requires Sorted(master) && Sorted(slave) && 0 < |slave|
    requires Ready(master, slave, st) && st.masterNext < |master|
    ensures var r := Advance(master, slave, st);
            && Ready(master, slave, r)
            && Matched(r) == AsOf(slave, master[st.masterNext].key, master[st.masterNext].ts)
  {
    var j := st.masterNext;
    var t := if st.slaveNext == 0 then master[j].ts else master[j - 1].ts;
    assert st.slaveNext != 0 ==> t <= master[j].ts;
    AdvanceMatchesAsOf(master, slave, st, t);
  }

  /** A traversal with a master row left reports that row's match, then the rest. */
  lemma PassUnfold<K>(master: seq<Row<K>>, slave: seq<Row<K>>, st: JoinState<K>)
    requires WellFormed(slave, st) && st.masterNext < |master| && 0 < |slave|
    ensures Pass(master, slave, st) == [Matched(Advance(master, slave, st))] + Pass(master, slave, Advance(master, slave, st))
  {
  }

  /** One step of the induction below: from a ready state, when the rest of
      the traversal already agrees with the reference, so does the whole. */
  lemma PassStep<K>(master: seq<Row<K>>, slave: seq<Row<K>>, st: JoinState<K>)
    requires Sorted(master) && Sorted(slave) && 0 < |slave|
    requires Ready(master, slave, st) && st.masterNext < |master|
    requires Pass(master, slave, Advance(master, slave, st)) == AsOfPass(master, slave, st.masterNext + 1)
    ensures Pass(master, slave, st) == AsOfPass(master, slave, st.masterNext)
  {
    var j := st.masterNext;
    StepIsAsOf(master, slave, st);
    PassUnfold(master, slave, st);
    var a := AsOf(slave, master[j].key, master[j].ts);
    assert AsOfPass(master, slave, j) == [a] + AsOfPass(master, slave, j + 1);
  }

  /** The induction hypothesis of PassFromIsAsOf: a step from a ready state
      leaves it ready, so the traversal from there reports the AS-OF matches
      of the rows after the one just joined. */
  lemma {:induction false} RestIsAsOf<K>(master: seq<Row<K>>, slave: seq<Row<K>>, st: JoinState<K>)
    requires Sorted(master) && Sorted(slave) && 0 < |slave|
    requires Ready(master, slave, st) && st.masterNext < |master|
    ensures Pass(master, slave, Advance(master, slave, st)) == AsOfPass(master, slave, st.masterNext + 1)
    decreases |master| - st.masterNext, 0
  {
    StepKeepsReady(master, slave, st);
    PassFromIsAsOf(master, slave, Advance(master, slave, st));
  }

  /** A step from a ready state leaves the state ready. */
  lemma StepKeepsReady<K>(master: seq<Row<K>>, slave: seq<Row<K>>, st: JoinState<K>)
    requires Sorted(master) && Sorted(slave) && 0 < |slave|
    requires Ready(master, slave, st) && st.masterNext < |master|
    ensures Ready(master, slave, Advance(master, slave, st))
  {
    StepIsAsOf(master, slave, st);
  }

  /** A traversal from a ready state reports, row by row, the AS-OF matches of
      the remaining master rows. */
  lemma {:induction false} PassFromIsAsOf<K>(master: seq<Row<K>>, slave: seq<Row<K>>, st: JoinState<K>)
    requires Sorted(master) && Sorted(slave) && 0 < |slave| && Ready(master, slave, st)
    ensures Pass(master, slave, st) == AsOfPass(master, slave, st.masterNext)
    decreases |master| - st.masterNext, 1
  {
    if st.masterNext < |master| {
      RestIsAsOf(master, slave, st);
      PassStep(master, slave, st);
    }
  }

  /** The AS-OF property: over sorted streams with a non-empty slave side, a
      traversal started by `of` or `toTop` matches every master row with the
      last slave row of the same key at or before its timestamp, and reports no
      match when there is none. */
  lemma PassIsAsOf<K>(master: seq<Row<K>>, slave: seq<Row<K>>, st: JoinState<K>)
    requires Sorted(master) && Sorted(slave) && 0 < |slave|
    ensures var p := Pass(master, slave, Reset(st));
            && |p| == |master|
            && forall i :: 0 <= i < |master| ==> p[i] == AsOf(slave, master[i].key, master[i].ts)
  {
    PassFromIsAsOf(master, slave, Reset(st));
    forall i | 0 <= i < |master| ensures AsOfPass(master, slave, 0)[i] == AsOf(slave, master[i].key, master[i].ts) {
      AsOfPassAt(master, slave, 0, i);
    }
  }

  /** The match flag a state carries does not influence the next hasNext. */
  lemma JoinRowIgnoresFlag<K>(slave: seq<Row<K>>, st: JoinState<K>, row: Row<K>, b: bool)
    requires 0 < |slave| && WellFormed(slave, st)
    ensures WellFormed(slave, st.(hasSlave := b))
    ensures JoinRow(slave, st.(hasSlave := b), row) == JoinRow(slave, st, row)
  {
    WellFormedIgnoresFlag(slave, st, b);
    if st.slaveTimestamp <= row.ts {
      CatchUpIgnoresFlag(slave, st, row.ts, b);
      LookupIgnoresFlag(CatchUp(slave, st, row.ts), row.key, b);
    } else {
      LookupIgnoresFlag(st, row.key, b);
    }
  }

  lemma WellFormedIgnoresFlag<K>(slave: seq<Row<K>>, st: JoinState<K>, b: bool)
    requires WellFormed(slave, st)
    ensures WellFormed(slave, st.(hasSlave := b))
  {
  }

  lemma LookupIgnoresFlag<K>(st: JoinState<K>, key: K, b: bool)
    ensures Lookup(st.(hasSlave := b), key) == Lookup(st, key)
  {
  }

  lemma CatchUpIgnoresFlag<K>(slave: seq<Row<K>>, st: JoinState<K>, mt: i64, b: bool)
    requires WellFormed(slave, st) && 0 < |slave|
    ensures CatchUp(slave, st.(hasSlave := b), mt) == CatchUp(slave, st, mt).(hasSlave := b)
  {
  }

  /** Restarting is idempotent: every traversal started by `of` or `toTop` over
      the same streams reports the same matches, whatever the state before. */
  lemma RestartIdempotent<K>(master: seq<Row<K>>, slave: seq<Row<K>>, st1: JoinState<K>, st2: JoinState<K>)
    requires 0 < |slave| || |master| == 0
    ensures Pass(master, slave, Reset(st1)) == Pass(master, slave, Reset(st2))
  {
    if 0 < |master| {
      var a, b := Reset(st1), Reset(st2);
      var started := a.(masterNext := 1);
      JoinRowIgnoresFlag(slave, started, master[0], st2.hasSlave);
      assert b.(masterNext := 1) == started.(hasSlave := st2.hasSlave);
      assert Advance(master, slave, a) == Advance(master, slave, b);
      PassUnfold(master, slave, a);
      PassUnfold(master, slave, b);
    }
  }
}
