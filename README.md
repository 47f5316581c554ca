# UpdateRowsWriter, modelled in Dafny

spark-binlog reads the MySQL binary log and hands each row change to Spark as
one JSON document. This model covers the writer for update-rows events,
`UpdateRowsWriter`.

An update-rows event has three parts:
- the table's column names;
- a bit set of included columns;
- a list of rows, each a before-image and an after-image.

For every row, `writeEvent` opens a document and calls `writeRow`, closes the
document and appends its text to the result. A row whose writing raises an
`IOException` is dropped, and the loop goes on with the next row.

`writeRow` walks the included columns with `BitSet.nextSetBit`: first
`nextSetBit(0)`, then `nextSetBit(i + 1)`. It writes one field per visited
column, inside an array named `"rows"` that holds one object. Each field's name
is the column name and its value is the normalized after-image value. With no
after-image, nothing is written inside the object, but the array and the object
are still opened and closed. The before-image is never read.

Modules:
- `BitSets` (`bit_sets.dfy`) models `nextSetBit` on a bit set held as a
  sequence of booleans. It defines the ascending list of set indices and the
  chain of indices that repeated `nextSetBit` calls visit.
- `Json` (`json.dfy`) models the streaming JSON generator as the list of
  tokens it has been asked to write.
- `UpdateRows` (`update_rows.dfy`) holds the event and row datatypes. It also
  holds the specification functions: `RowDocument`, the payload for one row,
  and `EventItems`, the documents for one event. The lemmas about them are
  here too.
- `BinlogIo` (`binlog_io.dfy`) holds the writer class. `WriteRow` runs the
  `nextSetBit` loop against the shared generator. `WriteEvent` runs the
  per-row loop. Both are proved against the specification functions.
- `Wrappers` (`wrappers.dfy`) is `Option`, which stands for a Java reference
  that may be null.

Points to note about the code:
- It never checks that an included column index is inside the after-image.
  For an index past its end, `newRow[i]` (UpdateRowsWriter.java:50) raises
  `ArrayIndexOutOfBoundsException`. That exception is unchecked, so the
  `IOException` handler does not catch it and it escapes `writeEvent`.
- The column-name lookup (UpdateRowsWriter.java:47) goes through
  `SchemaTool.getColumnNameByIndex`, which is not part of this model. What it
  does for an index past the schema's end is not known here: it might throw,
  or it might return some name.
- The model therefore makes "every included index is in range" a
  precondition (`InRange`, `AllInRange`). For the after-image this is the
  unchecked failure above. For the schema it excludes a case whose behaviour
  is not in the code shown.
- A failed row is not reported to the caller. Its stack trace is printed and
  the row is left out of the result. The model says the same: a failed row
  yields no item and nothing else.

## Model

All source paths are relative to the repository root.

| member | source | states |
|---|---|---|
| BitSets.NextSetBit | src/main/java/org/apache/spark/sql/mlsql/sources/mysql/binlog/io/UpdateRowsWriter.java:43 | `nextSetBit(from)` is -1 exactly when no bit at or after `from` is set. Otherwise it is a set index at or after `from`, and every bit between `from` and it is clear. |
| BitSets.SetBitsBelow | src/main/java/org/apache/spark/sql/mlsql/sources/mysql/binlog/io/UpdateRowsWriter.java:43-52 | The reference enumeration of the included columns below `n`. Every listed index is below `n` and set. |
| BitSets.SetBitsExact | src/main/java/org/apache/spark/sql/mlsql/sources/mysql/binlog/io/UpdateRowsWriter.java:43-52 | The list of set indices is strictly ascending. It holds an index exactly when that bit is set, so each included column appears once. |
| BitSets.WalkVisitsSetBits | src/main/java/org/apache/spark/sql/mlsql/sources/mysql/binlog/io/UpdateRowsWriter.java:43-52 | The chain `nextSetBit(from)`, `nextSetBit(i + 1)`, … visits exactly the set indices at or after `from`, in ascending order. |
| BitSets.WalkFromZero | src/main/java/org/apache/spark/sql/mlsql/sources/mysql/binlog/io/UpdateRowsWriter.java:43-52 | The index chain `nextSetBit(0)`, `nextSetBit(i + 1)`, … (the function `Walk`) lists every set index once, ascending, and nothing else. `WriteRow` proves its loop visits that same list. |
| BitSets.VisitedStart | src/main/java/org/apache/spark/sql/mlsql/sources/mysql/binlog/io/UpdateRowsWriter.java:43 | With the cursor at `nextSetBit(0)`, no set index has been visited yet. |
| BitSets.VisitedStep | src/main/java/org/apache/spark/sql/mlsql/sources/mysql/binlog/io/UpdateRowsWriter.java:46-52 | Moving the cursor from set index `i` to `nextSetBit(i + 1)` visits `i` and skips no set index. |
| UpdateRows.FieldsBelow | src/main/java/org/apache/spark/sql/mlsql/sources/mysql/binlog/io/UpdateRowsWriter.java:46-53 | The fields written for the included columns below `n` are only object fields. No bracket token appears inside the object. |
| UpdateRows.RowDocument | src/main/java/org/apache/spark/sql/mlsql/sources/mysql/binlog/io/UpdateRowsWriter.java:40-56 | A row's payload is well bracketed. It is the array `"rows"` opened, an object opened, only fields, then the object and the array closed. |
| UpdateRows.WalkBounds | src/main/java/org/apache/spark/sql/mlsql/sources/mysql/binlog/io/UpdateRowsWriter.java:42-55 | At `i = nextSetBit(0)` no field has been written yet. Once `i` is -1, all fields of the payload have been written. |
| UpdateRows.WalkFieldsStep | src/main/java/org/apache/spark/sql/mlsql/sources/mysql/binlog/io/UpdateRowsWriter.java:46-52 | One loop iteration at set index `i` adds column `i`'s field when there is an after-image, and nothing otherwise. |
| UpdateRows.FieldsEnumerateSetBits | src/main/java/org/apache/spark/sql/mlsql/sources/mysql/binlog/io/UpdateRowsWriter.java:46-53 | With an after-image, the fields are the projection of the after-image onto the set indices, in ascending order. |
| UpdateRows.NoFieldsWithoutAfterImage | src/main/java/org/apache/spark/sql/mlsql/sources/mysql/binlog/io/UpdateRowsWriter.java:48-51 | A null after-image yields no field, whatever the mask. |
| UpdateRows.AbsentAfterImage | src/main/java/org/apache/spark/sql/mlsql/sources/mysql/binlog/io/UpdateRowsWriter.java:42-55 | A null after-image gives an empty object, but the `"rows"` array and the object are still opened and closed. |
| UpdateRows.ProjectedFields | src/main/java/org/apache/spark/sql/mlsql/sources/mysql/binlog/io/UpdateRowsWriter.java:46-53 | With an after-image there is one field per included column. The k-th field belongs to the k-th set index in ascending order. Its name is that column's name and its value is the normalized after-image value. |
| UpdateRows.FieldNamed | src/main/java/org/apache/spark/sql/mlsql/sources/mysql/binlog/io/UpdateRowsWriter.java:47-50 | With distinct column names, a projected field list names column `j` exactly when `j` is projected. That field carries column `j`'s normalized value. |
| UpdateRows.FieldPresentIff | src/main/java/org/apache/spark/sql/mlsql/sources/mysql/binlog/io/UpdateRowsWriter.java:47-51 | With distinct column names, column `j` appears in a payload exactly when `j` is included and there is an after-image. The field then holds `normalize(after[j])`. |
| UpdateRows.WrittenCount | src/main/java/org/apache/spark/sql/mlsql/sources/mysql/binlog/io/UpdateRowsWriter.java:25-37 | The number of rows written is at most the number of rows. |
| UpdateRows.EventItems | src/main/java/org/apache/spark/sql/mlsql/sources/mysql/binlog/io/UpdateRowsWriter.java:21-38 | An event yields one document per row that does not fail. The count of documents equals the count of such rows. |
| UpdateRows.EventItemsStep | src/main/java/org/apache/spark/sql/mlsql/sources/mysql/binlog/io/UpdateRowsWriter.java:25-36 | Taking one more row appends that row's document, built with the event's mask, unless the row fails. |
| UpdateRows.AllWrittenIff | src/main/java/org/apache/spark/sql/mlsql/sources/mysql/binlog/io/UpdateRowsWriter.java:25-37 | Every row is written exactly when no row raises an IOException. |
| UpdateRows.EventItemAt | src/main/java/org/apache/spark/sql/mlsql/sources/mysql/binlog/io/UpdateRowsWriter.java:25-37 | A row that does not fail is at the position given by the number of rows written before it. That document is its payload built with the event's one mask. |
| UpdateRows.WrittenInOrder | src/main/java/org/apache/spark/sql/mlsql/sources/mysql/binlog/io/UpdateRowsWriter.java:25-37 | Documents keep row order. An earlier written row lands strictly before any later one. |
| UpdateRows.BeforeImageIgnored | src/main/java/org/apache/spark/sql/mlsql/sources/mysql/binlog/io/UpdateRowsWriter.java:40-56 | Two events whose rows have the same after-images yield the same documents, so the before-image is never read. |
| UpdateRows.ProjectionExample | src/main/java/org/apache/spark/sql/mlsql/sources/mysql/binlog/io/UpdateRowsWriter.java:40-56 | Columns id, name and age with name excluded give exactly the fields id and age, in column order. |
| UpdateRows.AbsentAfterImageExample | src/main/java/org/apache/spark/sql/mlsql/sources/mysql/binlog/io/UpdateRowsWriter.java:48-55 | The same columns, all included, with a null after-image give an empty object inside the array. |
| BinlogIo.UpdateRowsWriter.constructor | src/main/java/org/apache/spark/sql/mlsql/sources/mysql/binlog/io/UpdateRowsWriter.java:17 | A writer starts with the given value conversion and an empty generator. |
| BinlogIo.UpdateRowsWriter.StartJson | src/main/java/org/apache/spark/sql/mlsql/sources/mysql/binlog/io/UpdateRowsWriter.java:27-28 | Each row gets a fresh generator with the document envelope opened. |
| BinlogIo.UpdateRowsWriter.EndJson | src/main/java/org/apache/spark/sql/mlsql/sources/mysql/binlog/io/UpdateRowsWriter.java:31 | Closing appends the end of the envelope and changes nothing else. |
| BinlogIo.UpdateRowsWriter.WriteRow | src/main/java/org/apache/spark/sql/mlsql/sources/mysql/binlog/io/UpdateRowsWriter.java:40-56 | The `nextSetBit` loop terminates. It appends exactly `RowDocument` to the generator's tokens, so its other properties carry over (see the lemmas above). The ghost result `visited`, which records the indices the loop visits, equals `SetBits` and `Walk(includedColumns, 0)`: every set index once, in ascending order. |
| BinlogIo.UpdateRowsWriter.WriteEvent | src/main/java/org/apache/spark/sql/mlsql/sources/mysql/binlog/io/UpdateRowsWriter.java:21-38 | The result is exactly `EventItems`: one enveloped document per row that does not fail, in row order, all built with the same mask. There are never more items than rows. Only the writer's own field changes: the generator it held on entry is left as it was, because each row gets a fresh one. |
| Json.JsonGenerator.WriteArrayFieldStart | src/main/java/org/apache/spark/sql/mlsql/sources/mysql/binlog/io/UpdateRowsWriter.java:42 | Writing a token appends it to the generator's output and nothing else. |
| Json.JsonGenerator.WriteStartObject | src/main/java/org/apache/spark/sql/mlsql/sources/mysql/binlog/io/UpdateRowsWriter.java:44 | As above, for the start of an object. |
| Json.JsonGenerator.WriteObjectField | src/main/java/org/apache/spark/sql/mlsql/sources/mysql/binlog/io/UpdateRowsWriter.java:50 | As above, for one named field with its value. |
| Json.JsonGenerator.WriteEndObject | src/main/java/org/apache/spark/sql/mlsql/sources/mysql/binlog/io/UpdateRowsWriter.java:54 | As above, for the end of the object. |
| Json.JsonGenerator.WriteEndArray | src/main/java/org/apache/spark/sql/mlsql/sources/mysql/binlog/io/UpdateRowsWriter.java:55 | As above, for the end of the array. |

## Left out

- Text rendering: a document is the sequence of generator calls, not the
  characters Jackson would produce. `writer.toString()` is that sequence.
- Envelope contents: `startJson` and `endJson` belong to the abstract
  base writer, which is not part of this model. They appear as the two tokens
  `EnvelopeStart` and `EnvelopeEnd`. The event's metadata written there is not
  modelled.
- `getWritableObject`: `MySQLCDCUtils` is not part of this model. It is an
  arbitrary function `normalize` fixed per writer. No property relies on how it
  converts values.
- Column-name lookup: `SchemaTool` and `TableInfo` are not part of this model.
  The schema is the list of column names, and the name of column `i` is
  element `i`.
- Where an IOException happens: it is a per-row input `ioFails` that is
  decided before the row is written. A failing row yields no item. The
  half-written generator state such a row leaves behind is not modelled,
  because no later row or result reads it.
- `printStackTrace`: output to standard error is not modelled.
- BinlogIo.UpdateRowsWriter.WriteRow: requires every included index to be
  inside the schema and the after-image.
  - An index past the after-image makes `newRow[i]` (line 50) raise an
    unchecked exception that escapes `writeEvent`. That path is excluded
    rather than modelled.
  - An index past the schema goes to `SchemaTool.getColumnNameByIndex`
    (line 47). That class is not part of this model, so its behaviour there
    is unknown, and the model excludes that case too.
- BinlogIo.UpdateRowsWriter.WriteEvent: requires the same range condition
  for every row, for the same reason.
- Bit-set size: a bit set is finite, with bits beyond its length clear, as for
  `java.util.BitSet`. A Java bit set may have bit `Integer.MAX_VALUE` set.
  At that bit, the 32-bit `i + 1` of line 52 would wrap to
  `Integer.MIN_VALUE`, and `nextSetBit` would throw. The model's integers are
  unbounded and do not wrap. The range precondition rules this case out: every
  set index is below the schema's size, and that size is a Java `int`, so it
  is at most `Integer.MAX_VALUE`.
