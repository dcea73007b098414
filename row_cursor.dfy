/**
 * The forward-only record cursor the join reads each side from, reduced to
 * what the join relies on: hasNext advances through the stream, the cursor's
 * record shows one row at a time, recordAt moves the record to a row already
 * produced, toTop rewinds, close releases.
 */
module RowCursors {
  import opened Rows

  class RowCursor<K> {
    /** The stream the cursor produces, in order. */
    const rows: seq<Row<K>>
    /** How many rows hasNext has produced: the iteration position. */
    var next: nat
    /** The row the cursor's record shows, or Unpositioned. */
    var at: int
    var closed: bool

    ghost predicate Valid()
      reads this
    {
      next <= |rows| && (at == Unpositioned || 0 <= at < next)
    }

    /** A freshly opened cursor: nothing produced, the record shows no row. */
    constructor (rows: seq<Row<K>>)
      ensures this.rows == rows && next == 0 && at == Unpositioned && !closed
      ensures Valid()
    {
      this.rows := rows;
      next := 0;
      at := Unpositioned;
      closed := false;
    }

    /** Produces the next row into the record, or reports the end and changes
        nothing. */
    method HasNext() returns (more: bool)
      requires Valid()
      modifies this
      ensures Valid() && closed == old(closed)
      ensures more <==> old(next) < |rows|
      ensures more ==> next == old(next) + 1 && at == old(next)
      ensures !more ==> next == old(next) && at == old(at)
    {
      more := next < |rows|;
      if more {
        at := next;
        next := next + 1;
      }
    }

    /** Moves the record to a row already produced; the iteration position
        stays where it was. */
    method RecordAt(id: int)
      requires Valid() && 0 <= id < next
      modifies this
      ensures Valid() && at == id && next == old(next) && closed == old(closed)
    {
      at := id;
    }

    /** The identifier of the row the record shows. */
    function RowId(): int
      reads this
    {
      at
    }

    /** The designated timestamp of the row the record shows. */
    function Timestamp(): i64
      requires Valid() && at != Unpositioned
      reads this
    {
      rows[at].ts
    }

    /** The join key of the row the record shows. */
    function Key(): K
      requires Valid() && at != Unpositioned
      reads this
    {
      rows[at].key
    }

    /** Rewinds to the state of a freshly opened cursor. */
    method ToTop()
      modifies this
      ensures next == 0 && at == Unpositioned && closed == old(closed)
      ensures Valid()
    {
      next := 0;
      at := Unpositioned;
    }

    method Close()
      modifies this
      ensures closed && next == old(next) && at == old(at)
    {
      closed := true;
    }
  }
}
