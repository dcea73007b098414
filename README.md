# AS-OF join cursor (light variant)

A model of QuestDB's `AsOfJoinLightRecordCursorFactory` and of the cursor it
hands out, `HashJoinRecordCursor`. The cursor joins a master stream with a
slave stream. Each master row is paired with the latest slave row that has the
same join key and a timestamp not past the master row's. When no such row
exists, the slave side shows nulls. The cursor reads each stream forward once. It keeps a keyed
map from join key to slave row identifier. It also remembers one "dangling"
slave row: the last row the catch-up read. Usually that is the first row past
the last master timestamp, and it goes into the map when the master catches up
with it. When the slave stream runs dry, it is the stream's last row instead.
That row is at or before the master timestamp and already in the map, and
upserting it again changes nothing.

The project has four modules:

- `Rows` (rows.dfy) defines rows, their timestamps as Java `long` (`i64`), and
  sortedness. It also defines the keyed index the map is built as (`Fold`,
  `Index`), where a catch-up stops (`CatchUpStop`), and the reference AS-OF
  match (`AsOf`).
- `AsOfJoin` (asof_join.dfy) is the cursor's state between calls as a value
  (`JoinState`), with the structural invariant `WellFormed`. It also defines
  what one `hasNext` does to that state (`CatchUp`, `Lookup`, `JoinRow`,
  `Advance`) and what a whole traversal reports (`Pass`). The AS-OF theorem
  `PassIsAsOf` is proved about these.
- `RowCursors` (row_cursor.dfy) is the contract the join relies on from the
  record cursors of the two sides. `hasNext` advances through a stream of rows.
  The cursor's record shows one row. `recordAt` moves the record to a row
  already produced, without moving the iteration.
- `AsOfJoinLight` (asof_join_light.dfy) holds the two classes.
  `HashJoinRecordCursor` keeps the map, the remembered slave timestamp and row,
  and the record's match flag as fields. Its `HasNext` is imperative: the
  catch-up loop runs over the slave cursor with loop invariants. It is proved to
  change the state exactly as `Advance` says.

A row identifier is the row's position in its stream. `Long.MIN_VALUE`, the
value `of` and `toTop` store as "no dangling row", is `NoRow`. The cursor
tests it against `Numbers.LONG_NaN`; the model takes the two to be equal.

## Model

| member | source | states |
|---|---|---|
| Rows.FoldOverwrites | core/src/main/java/com/questdb/griffin/engine/join/AsOfJoinLightRecordCursorFactory.java:156-166 | Upserting rows in stream order leaves every key written mapped to the last row carrying it. Every other key keeps its earlier value, and no key is lost. |
| Rows.IndexFacts | core/src/main/java/com/questdb/griffin/engine/join/AsOfJoinLightRecordCursorFactory.java:156-166 | The map built from the first n slave rows holds exactly the keys seen among them. Each key maps to the last of those rows that carries it. |
| Rows.FoldAppend | core/src/main/java/com/questdb/griffin/engine/join/AsOfJoinLightRecordCursorFactory.java:147-166 | Upserting rows in two consecutive batches gives the same map as upserting them in one. This is how the catch-up continues the map left by earlier calls. |
| Rows.RefoldLast | core/src/main/java/com/questdb/griffin/engine/join/AsOfJoinLightRecordCursorFactory.java:147-153 | Upserting the last row read once more leaves the map unchanged. |
| Rows.CatchUpStop | core/src/main/java/com/questdb/griffin/engine/join/AsOfJoinLightRecordCursorFactory.java:156-166 | The catch-up loop stops at the first row past the master timestamp, or at the end of the stream. Every row before the stop is at or before that timestamp. |
| Rows.CatchUpStopUnique | core/src/main/java/com/questdb/griffin/engine/join/AsOfJoinLightRecordCursorFactory.java:156-166 | The stop position is the only position with those two properties. |
| Rows.AsOfFacts | core/src/main/java/com/questdb/griffin/engine/join/AsOfJoinLightRecordCursorFactory.java:173-181 | The AS-OF match is a row of the key at or before the time, and every later row of that key is past it. With no match, every row of the key is past the time. |
| Rows.AsOfIsLatest | core/src/main/java/com/questdb/griffin/engine/join/AsOfJoinLightRecordCursorFactory.java:173-181 | On a sorted stream, the match has the greatest timestamp among the candidate rows. Among rows with an equal timestamp, it is the last one, so the last row wins on ties. |
| Rows.PrefixIndexIsAsOf | core/src/main/java/com/questdb/griffin/engine/join/AsOfJoinLightRecordCursorFactory.java:156-181 | On a sorted stream, the map over the rows before the first one past t answers every key with its AS-OF match at t. |
| AsOfJoin.Reset | core/src/main/java/com/questdb/griffin/engine/join/AsOfJoinLightRecordCursorFactory.java:189-200 | The state of and toTop leave: both streams at their start, an empty map, slave timestamp Long.MIN_VALUE and no dangling row. The record's match flag is kept. |
| AsOfJoin.ResetIsReady | core/src/main/java/com/questdb/griffin/engine/join/AsOfJoinLightRecordCursorFactory.java:189-200 | The reset state is consistent with any pair of streams, and a traversal can start from it. |
| AsOfJoin.CatchUp | core/src/main/java/com/questdb/griffin/engine/join/AsOfJoinLightRecordCursorFactory.java:144-171 | The catch-up phase of hasNext. It upserts the dangling row, then every slave row up to the first one past the master timestamp, and remembers the row the slave record then shows. It reads the slave stream only forward and leaves the master side and the match flag alone. Its full result is stated by CatchUpFacts. |
| AsOfJoin.DanglingCompletesIndex | core/src/main/java/com/questdb/griffin/engine/join/AsOfJoinLightRecordCursorFactory.java:147-153 | Upserting the dangling row again completes the map over every slave row read. |
| AsOfJoin.CatchUpFacts | core/src/main/java/com/questdb/griffin/engine/join/AsOfJoinLightRecordCursorFactory.java:144-171 | After the catch-up, the map indexes every slave row before the first one past the master timestamp. The stream has been read through that row, which is remembered with its timestamp. The state is well formed again. |
| AsOfJoin.DanglingGoesFirst | core/src/main/java/com/questdb/griffin/engine/join/AsOfJoinLightRecordCursorFactory.java:147-166 | The dangling row is upserted before the loop. Only a later row of the same key can replace it. |
| AsOfJoin.Lookup | core/src/main/java/com/questdb/griffin/engine/join/AsOfJoinLightRecordCursorFactory.java:173-181 | The lookup never inserts and changes nothing but the slave record and the match flag. It reports a match exactly when the key is in the map. On a match, the slave record moves to the stored row. |
| AsOfJoin.MapRowsRead | core/src/main/java/com/questdb/griffin/engine/join/AsOfJoinLightRecordCursorFactory.java:173-177 | Every row identifier in the map names a slave row already read, so the recordAt call is valid. |
| AsOfJoin.LookupKeepsWellFormed | core/src/main/java/com/questdb/griffin/engine/join/AsOfJoinLightRecordCursorFactory.java:176-181 | The lookup keeps the state well formed. |
| AsOfJoin.JoinRow | core/src/main/java/com/questdb/griffin/engine/join/AsOfJoinLightRecordCursorFactory.java:141-183 | Joining a master row keeps the state well formed. It reports a match exactly when the row's key is in the map, and on a match shows the stored row. |
| AsOfJoin.Advance | core/src/main/java/com/questdb/griffin/engine/join/AsOfJoinLightRecordCursorFactory.java:138-186 | One hasNext that produces a master row: the master position moves by one, the state stays well formed, and the reported match is the map's entry for the row's key. |
| AsOfJoin.AdvanceProgress | core/src/main/java/com/questdb/griffin/engine/join/AsOfJoinLightRecordCursorFactory.java:144-171 | A remembered slave timestamp past the master timestamp skips the catch-up: the map, the slave position and the dangling row are unchanged. Otherwise the map indexes every slave row before the first one past the master timestamp, and that row becomes the dangling row. |
| AsOfJoin.CaughtHidesLater | core/src/main/java/com/questdb/griffin/engine/join/AsOfJoinLightRecordCursorFactory.java:156-166 | After a catch-up to time t, the map holds no slave row past t. |
| AsOfJoin.StopFromPrefix | core/src/main/java/com/questdb/griffin/engine/join/AsOfJoinLightRecordCursorFactory.java:156-166 | A catch-up that resumes where the last one stopped ends where one from the start of the stream would. |
| AsOfJoin.AdvanceCatchesUp | core/src/main/java/com/questdb/griffin/engine/join/AsOfJoinLightRecordCursorFactory.java:144-171 | From a fresh state, or one caught up with an earlier master timestamp, hasNext leaves the state caught up with the new master timestamp. |
| AsOfJoin.Pass | core/src/main/java/com/questdb/griffin/engine/join/AsOfJoinLightRecordCursorFactory.java:138-186 | A traversal reports one match per remaining master row. |
| AsOfJoin.AdvanceMatchesAsOf | core/src/main/java/com/questdb/griffin/engine/join/AsOfJoinLightRecordCursorFactory.java:138-183 | On a sorted slave stream, hasNext from a fresh or caught-up state reports the AS-OF match of the new master row. |
| AsOfJoin.StepIsAsOf | core/src/main/java/com/questdb/griffin/engine/join/AsOfJoinLightRecordCursorFactory.java:138-186 | Over sorted streams, one hasNext from a ready state reports the AS-OF match and leaves the state ready. |
| AsOfJoin.StepKeepsReady | core/src/main/java/com/questdb/griffin/engine/join/AsOfJoinLightRecordCursorFactory.java:138-186 | One hasNext from a ready state leaves the state ready. |
| AsOfJoin.PassStep | core/src/main/java/com/questdb/griffin/engine/join/AsOfJoinLightRecordCursorFactory.java:138-186 | A traversal agrees with the reference when its remainder does. |
| AsOfJoin.RestIsAsOf | core/src/main/java/com/questdb/griffin/engine/join/AsOfJoinLightRecordCursorFactory.java:138-186 | After one step from a ready state, the rest of the traversal agrees with the reference. |
| AsOfJoin.PassFromIsAsOf | core/src/main/java/com/questdb/griffin/engine/join/AsOfJoinLightRecordCursorFactory.java:138-186 | From a ready state, a traversal reports the AS-OF matches of the remaining master rows. |
| AsOfJoin.PassIsAsOf | core/src/main/java/com/questdb/griffin/engine/join/AsOfJoinLightRecordCursorFactory.java:138-206 | The AS-OF property. Over sorted streams with a non-empty slave side, a traversal started by of or toTop matches every master row with the last slave row of the same key at or before its timestamp. It reports no match when there is none. |
| AsOfJoin.JoinRowIgnoresFlag | core/src/main/java/com/questdb/griffin/engine/join/AsOfJoinLightRecordCursorFactory.java:176-181 | The record's previous match flag has no bearing on the next hasNext. |
| AsOfJoin.RestartIdempotent | core/src/main/java/com/questdb/griffin/engine/join/AsOfJoinLightRecordCursorFactory.java:189-206 | Every traversal started by of or toTop over the same streams reports the same matches, whatever state the cursor was in before. |
| RowCursors.RowCursor.HasNext | core/src/main/java/com/questdb/griffin/engine/join/AsOfJoinLightRecordCursorFactory.java:156 | The cursor contract the join relies on: hasNext either produces the next row into the record, or reports the end and changes nothing. |
| RowCursors.RowCursor.RecordAt | core/src/main/java/com/questdb/griffin/engine/join/AsOfJoinLightRecordCursorFactory.java:177 | The cursor contract the join relies on: recordAt moves the record to a row already produced, and the iteration position stays where it was. |
| RowCursors.RowCursor.ToTop | core/src/main/java/com/questdb/griffin/engine/join/AsOfJoinLightRecordCursorFactory.java:193-194 | The cursor contract the join relies on: toTop rewinds to the state of a freshly opened cursor. |
| AsOfJoinLight.HashJoinRecordCursor.constructor | core/src/main/java/com/questdb/griffin/engine/join/AsOfJoinLightRecordCursorFactory.java:107-116 | A new cursor has no cursors bound, an empty map, slave timestamp Long.MIN_VALUE and no dangling row. |
| AsOfJoinLight.HashJoinRecordCursor.GetSymbolTable | core/src/main/java/com/questdb/griffin/engine/join/AsOfJoinLightRecordCursorFactory.java:130-135 | Columns below the split are answered by the master side under the same index. All other columns are answered by the slave side under the index minus the split. |
| AsOfJoinLight.HashJoinRecordCursor.SymbolTableRoundTrip | core/src/main/java/com/questdb/griffin/engine/join/AsOfJoinLightRecordCursorFactory.java:130-135 | Every column of either side is reached through its joined column index. |
| AsOfJoinLight.HashJoinRecordCursor.Of | core/src/main/java/com/questdb/griffin/engine/join/AsOfJoinLightRecordCursorFactory.java:197-206 | Binds the two cursors, empties the map, and forgets the slave timestamp and the dangling row. The state is the reset state. |
| AsOfJoinLight.HashJoinRecordCursor.ToTop | core/src/main/java/com/questdb/griffin/engine/join/AsOfJoinLightRecordCursorFactory.java:189-195 | Rewinds both cursors and resets the join state to what of leaves. |
| AsOfJoinLight.HashJoinRecordCursor.Close | core/src/main/java/com/questdb/griffin/engine/join/AsOfJoinLightRecordCursorFactory.java:119-122 | Closes both cursors and drops them. The map, the slave timestamp, the dangling row and the match flag are unchanged. |
| AsOfJoinLight.HashJoinRecordCursor.CatchUpSlave | core/src/main/java/com/questdb/griffin/engine/join/AsOfJoinLightRecordCursorFactory.java:144-171 | Upserts the dangling row, then runs the catch-up loop. It then remembers the row the slave record shows, with the timestamp last read, exactly as CatchUp says. |
| AsOfJoinLight.HashJoinRecordCursor.ReadUpTo | core/src/main/java/com/questdb/griffin/engine/join/AsOfJoinLightRecordCursorFactory.java:156-166 | The loop upserts every row up to the first one past the master timestamp and leaves that row in the slave record. The map becomes the fold of the rows read. |
| AsOfJoinLight.HashJoinRecordCursor.JoinMasterRow | core/src/main/java/com/questdb/griffin/engine/join/AsOfJoinLightRecordCursorFactory.java:141-183 | Catches up only when the remembered slave timestamp is not past the master timestamp, then looks the master key up, exactly as JoinRow says. |
| AsOfJoinLight.HashJoinRecordCursor.HasNext | core/src/main/java/com/questdb/griffin/engine/join/AsOfJoinLightRecordCursorFactory.java:138-186 | Returns false exactly when the master stream is exhausted, and then changes nothing. Otherwise it joins the new master row, exactly as Advance says, and keeps the cursor valid. |
| AsOfJoinLight.AsOfJoinLightRecordCursorFactory.constructor | core/src/main/java/com/questdb/griffin/engine/join/AsOfJoinLightRecordCursorFactory.java:48-73 | The factory builds one join cursor with the given column split and no cursors bound. |
| AsOfJoinLight.AsOfJoinLightRecordCursorFactory.GetCursor | core/src/main/java/com/questdb/griffin/engine/join/AsOfJoinLightRecordCursorFactory.java:84-90 | Opens both sides and starts the single join cursor over them in the reset state. |

## Left out

- `StrFunction` is left out. It is a string-function base class with no part in the join.
- The `Map` implementation, the key sinks and the column types are left out. The map is a Dafny `map` from a key of type `K` to a row identifier. Each sink is the row's `key` field.
- The row timestamp is the `ts` field of a row. The metadata and the timestamp column indexes (lines 70-71, 101-102) are not modelled.
- `OuterJoinRecord`, `NullRecordFactory` and the per-type null values are left out. The record is reduced to its match flag (`hasSlave`) and the row its slave side shows. The flag's value before the first `hasNext` is not modelled.
- `getRecord` (lines 124-127) only returns the record and is not modelled.
- The factory's `close` (lines 76-81) and `isRandomAccessCursor` (lines 92-95) are left out. They only release resources or return a constant. The factory's `close` releases, in this order: the map, the join metadata, the master factory, the slave factory.
- The execution context is not modelled. The streams the two underlying factories produce are parameters of `GetCursor`.
- `NoRow`: the model takes `Numbers.LONG_NaN` to equal `Long.MIN_VALUE`. The sentinel stored at lines 108, 192 and 200 and the one tested at line 147 are then the same.
- The row cursor contract is assumed, not derived. The assumptions are:
  - `recordAt` moves only the record, not the iteration;
  - a `hasNext` that reports the end leaves the record on the last row produced. After the catch-up loop drains the stream, line 170 stores that row's identifier, and line 148 replays it on the next catch-up;
  - `toTop` rewinds to the start;
  - `of` receives freshly opened cursors, as `getCursor` gives it.
- AsOfJoinLight.HashJoinRecordCursor.HasNext requires a non-empty slave stream, unless the master stream is exhausted. With an empty slave stream, the first catch-up's loop reads no row, so line 170 stores the identifier of a slave record that shows no row. On the next master row, line 148 passes that identifier to `recordAt`, and line 150 upserts whatever key the record then shows. This looks like a possible defect of the source on an empty slave table. It is read from the code and not executed. The model does not give those values a meaning.
- AsOfJoin.PassIsAsOf: the AS-OF theorem needs both streams sorted by timestamp. The cursor itself runs on any input, and the model covers unsorted inputs too. Only the theorem is restricted to sorted ones.
- The body of `hasNext` is split into several methods in the model: `JoinMasterRow`, `CatchUpSlave` and `ReadUpTo`. Together they run the same statements. One thing differs in order. The model reads the master row's key from the master record before the catch-up, but the source reads it afterwards, at line 174. The result is the same, because the catch-up moves only the slave cursor, and the two cursors are distinct objects (`Valid` requires it).
