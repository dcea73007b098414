/**
 * AsOfJoinLightRecordCursorFactory and its HashJoinRecordCursor: the cursor
 * that pairs every master row with the latest slave row of the same join key
 * whose timestamp is not past the master's, keeping a keyed map of slave row
 * identifiers that it builds while reading both streams forward once.
 */
module AsOfJoinLight {
  import opened Rows
  import opened AsOfJoin
  import opened RowCursors

  /** Which side's cursor answers a symbol-table request, and under which
      column index of that side. */
  datatype SymbolTableSource = MasterTable(column: int) | SlaveTable(column: int)

  class HashJoinRecordCursor<K(==)> {
    /** Columns below the split belong to the master side, the rest to the slave side. */
    const columnSplit: int
    var masterCursor: RowCursor?<K>
    var slaveCursor: RowCursor?<K>
    /** join key -> slave row identifier */
    var joinKeyMap: map<K, int>
    var slaveTimestamp: i64
    var lastSlaveRowId: int
    /** The outer-join record's match flag. */
    var hasSlave: bool

    /** Between calls: two distinct open cursors, and a join state that agrees
        with what has been read from the slave stream. */
    ghost predicate Valid()
      reads this, masterCursor, slaveCursor
    {
      && masterCursor != null && slaveCursor != null && masterCursor != slaveCursor
      && masterCursor.Valid() && slaveCursor.Valid()
      && WellFormed(slaveCursor.rows, State())
    }

    /** The join state the cursor holds, as the value the join functions speak of. */
    ghost function State(): JoinState<K>
      requires masterCursor != null && slaveCursor != null
      reads this, masterCursor, slaveCursor
    {
      JoinState(masterCursor.next, slaveCursor.next, slaveCursor.at, joinKeyMap,
                slaveTimestamp, lastSlaveRowId, hasSlave)
    }

    constructor (columnSplit: int)
      ensures this.columnSplit == columnSplit
      ensures masterCursor == null && slaveCursor == null
      ensures joinKeyMap == map[] && slaveTimestamp == LongMin && lastSlaveRowId == NoRow
    {
      this.columnSplit := columnSplit;
      masterCursor := null;
      slaveCursor := null;
      joinKeyMap := map[];
      slaveTimestamp := LongMin;
      lastSlaveRowId := NoRow;
    }

    /** The column index the joined record gives a column of one side. */
    function JoinedColumn(source: SymbolTableSource): int
    {
      match source
      case MasterTable(c) => c
      case SlaveTable(c) => c + columnSplit
    }

    /** Columns below the split are the master's, under the same index; the
        others are the slave's, shifted down by the split. */
    function GetSymbolTable(columnIndex: int): (r: SymbolTableSource)
      requires masterCursor != null && slaveCursor != null
      reads this
      ensures r.MasterTable? <==> columnIndex < columnSplit
      ensures JoinedColumn(r) == columnIndex
    {
      if columnIndex < columnSplit then MasterTable(columnIndex)
      else SlaveTable(columnIndex - columnSplit)
    }

    /** Every column of either side is reached through its joined index. */
    lemma SymbolTableRoundTrip(source: SymbolTableSource)
      requires masterCursor != null && slaveCursor != null
      requires source.MasterTable? ==> source.column < columnSplit
      requires source.SlaveTable? ==> 0 <= source.column
      ensures GetSymbolTable(JoinedColumn(source)) == source
    {
    }

    /** Starts a join over two freshly opened cursors: the map is emptied and no
        slave row is remembered. */
    method Of(master: RowCursor<K>, slave: RowCursor<K>)
      requires master != slave && master.Valid() && slave.Valid()
      requires master.next == 0 && slave.next == 0
      modifies this
      ensures masterCursor == master && slaveCursor == slave
      ensures Valid() && State() == Reset(State())
      ensures hasSlave == old(hasSlave)
    {
      joinKeyMap := map[];
      slaveTimestamp := LongMin;
      lastSlaveRowId := NoRow;
      masterCursor := master;
      slaveCursor := slave;
    }

    /** Rewinds the join: both cursors and the join state start over. */
    method ToTop()
      requires Valid()
      modifies this, masterCursor, slaveCursor
      ensures Valid() && masterCursor == old(masterCursor) && slaveCursor == old(slaveCursor)
      ensures State() == Reset(old(State()))
    {
      joinKeyMap := map[];
      slaveTimestamp := LongMin;
      lastSlaveRowId := NoRow;
      masterCursor.ToTop();
      slaveCursor.ToTop();
    }

    /** Releases both cursors. */
    method Close()
      modifies this, masterCursor, slaveCursor
      ensures masterCursor == null && slaveCursor == null
      ensures old(masterCursor) != null ==> old(masterCursor).closed
      ensures old(slaveCursor) != null ==> old(slaveCursor).closed
      ensures joinKeyMap == old(joinKeyMap) && slaveTimestamp == old(slaveTimestamp)
      ensures lastSlaveRowId == old(lastSlaveRowId) && hasSlave == old(hasSlave)
    {
      if masterCursor != null {
        masterCursor.Close();
      }
      masterCursor := null;
      if slaveCursor != null {
        slaveCursor.Close();
      }
      slaveCursor := null;
    }

    /** The catch-up phase of hasNext for master timestamp masterTimestamp. */
    method CatchUpSlave(masterTimestamp: i64)
      requires Valid() && 0 < |slaveCursor.rows|
      modifies this`joinKeyMap, this`slaveTimestamp, this`lastSlaveRowId, slaveCursor
      ensures slaveCursor.Valid()
      ensures State() == CatchUp(slaveCursor.rows, old(State()), masterTimestamp)
    {
      ghost var st := State();
      ghost var slave := slaveCursor.rows;
      if lastSlaveRowId != NoRow {
        slaveCursor.RecordAt(lastSlaveRowId);
        joinKeyMap := joinKeyMap[slaveCursor.Key() := lastSlaveRowId];
      }
      var ts := ReadUpTo(masterTimestamp, slaveTimestamp);
      // the row the slave record now shows is the new dangling row
      slaveTimestamp := ts;
      lastSlaveRowId := slaveCursor.RowId();
    }

    /** The loop of the catch-up: upserts every row the slave cursor yields up
        to the first one past masterTimestamp, which it leaves in the slave
        record and whose timestamp it returns; when the stream runs dry, the
        timestamp of the last row read, or ts0 when none was. */
    method ReadUpTo(masterTimestamp: i64, ts0: i64) returns (ts: i64)
      requires slaveCursor != null && slaveCursor.Valid()
      modifies this`joinKeyMap, slaveCursor
      ensures slaveCursor.Valid()
      ensures var slave := slaveCursor.rows;
              var s0 := old(slaveCursor.next);
              var n := CatchUpStop(slave, s0, masterTimestamp);
              && joinKeyMap == Fold(old(joinKeyMap), slave, s0, n)
              && (n < |slave| ==> slaveCursor.next == n + 1 && slaveCursor.at == n && ts == slave[n].ts)
              && (n == |slave| ==> slaveCursor.next == n)
              && (n == |slave| && s0 < n ==> slaveCursor.at == n - 1 && ts == slave[n - 1].ts)
              && (n == |slave| && s0 == n ==> slaveCursor.at == old(slaveCursor.at) && ts == ts0)
    {
      ghost var slave := slaveCursor.rows;
      ghost var s0 := slaveCursor.next;
      ghost var m0 := joinKeyMap;
      ghost var at0 := slaveCursor.at;
      ts := ts0;
      ghost var p := s0;
      var more := slaveCursor.HasNext();
      while more
        invariant slaveCursor.Valid() && s0 <= p <= |slave|
        invariant joinKeyMap == Fold(m0, slave, s0, p)
        invariant forall i :: s0 <= i < p ==> slave[i].ts <= masterTimestamp
        invariant more ==> slaveCursor.next == p + 1 && slaveCursor.at == p
        invariant !more ==> slaveCursor.next == p == |slave|
        invariant !more && s0 < p ==> slaveCursor.at == p - 1
        invariant !more && s0 == p ==> slaveCursor.at == at0
        invariant s0 < p ==> ts == slave[p - 1].ts
        invariant s0 == p ==> ts == ts0
        decreases |slave| - slaveCursor.next + (if more then 1 else 0)
      {
        ts := slaveCursor.Timestamp();
        if ts <= masterTimestamp {
          joinKeyMap := joinKeyMap[slaveCursor.Key() := slaveCursor.RowId()];
          p := p + 1;
          more := slaveCursor.HasNext();
        } else {
          break;
        }
      }
      CatchUpStopUnique(slave, s0, p, masterTimestamp);
    }

    /** Joins the master row just produced, with timestamp masterTimestamp and
        join key key: catches up when the remembered slave timestamp is not
        past masterTimestamp, then looks the key up. */
    method JoinMasterRow(masterTimestamp: i64, key: K)
      requires Valid() && 0 < |slaveCursor.rows|
      modifies this`joinKeyMap, this`slaveTimestamp, this`lastSlaveRowId, this`hasSlave, slaveCursor
      ensures slaveCursor.Valid()
      ensures State() == JoinRow(slaveCursor.rows, old(State()), Row(masterTimestamp, key))
    {
      ghost var st := State();
      ghost var slave := slaveCursor.rows;
      ghost var st1 := st;
      if slaveTimestamp <= masterTimestamp {
        CatchUpSlave(masterTimestamp);
        st1 := CatchUp(slave, st, masterTimestamp);
        CatchUpFacts(slave, st, masterTimestamp);
      }
      assert State() == st1;
      MapRowsRead(slave, st1);
      if key in joinKeyMap {
        slaveCursor.RecordAt(joinKeyMap[key]);
        hasSlave := true;
      } else {
        hasSlave := false;
      }
    }

    /** Produces the next joined row: reports false, changing nothing, once the
        master stream is exhausted; otherwise joins the new master row, exactly
        as Advance describes. */
    method HasNext() returns (r: bool)
      requires Valid()
      requires 0 < |slaveCursor.rows| || masterCursor.next == |masterCursor.rows|
      modifies this, masterCursor, slaveCursor
      ensures Valid() && masterCursor == old(masterCursor) && slaveCursor == old(slaveCursor)
      ensures r <==> old(masterCursor.next) < |masterCursor.rows|
      ensures r ==> State() == Advance(masterCursor.rows, slaveCursor.rows, old(State()))
      ensures r ==> masterCursor.at == old(masterCursor.next)
      ensures !r ==> State() == old(State()) && masterCursor.at == old(masterCursor.at)
    {
      ghost var st := State();
      r := masterCursor.HasNext();
      if !r {
        return;
      }
      WellFormedIgnoresMaster(slaveCursor.rows, st, st.masterNext + 1);
      JoinMasterRow(masterCursor.Timestamp(), masterCursor.Key());
    }
  }

  class AsOfJoinLightRecordCursorFactory<K(==)> {
    /** The one cursor the factory hands out, reopened on every request. */
    const cursor: HashJoinRecordCursor<K>

    constructor (columnSplit: int)
      ensures fresh(cursor) && cursor.columnSplit == columnSplit
      ensures cursor.masterCursor == null && cursor.slaveCursor == null
    {
      cursor := new HashJoinRecordCursor(columnSplit);
    }

    /** Opens the master and slave streams and starts the join over them; the
        rows stand for what the two underlying factories produce. */
    method GetCursor(masterRows: seq<Row<K>>, slaveRows: seq<Row<K>>) returns (c: HashJoinRecordCursor<K>)
      modifies cursor
      ensures c == cursor && c.Valid() && c.State() == Reset(c.State())
      ensures c.masterCursor.rows == masterRows && c.slaveCursor.rows == slaveRows
      ensures fresh(c.masterCursor) && fresh(c.slaveCursor)
    {
      var master := new RowCursor(masterRows);
      var slave := new RowCursor(slaveRows);
      cursor.Of(master, slave);
      c := cursor;
    }
  }
}
