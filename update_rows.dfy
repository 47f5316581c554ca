/** What the update-rows writer produces, as functions of its inputs: the "rows"
    payload one row change projects to, and the list of documents one update-rows
    event yields. The writer class in module BinlogIo is proved against these. */
module UpdateRows {
  import opened Wrappers
  import opened BitSets
  import opened Json

  /** One entry of an update-rows event: the before-image and the after-image of a
      row, each a column-indexed array of raw values that may be null. */
  datatype Row<V> = Row(before: Option<seq<V>>, after: Option<seq<V>>)

  /** The event data: which columns the event carries, and the changed rows. */
  datatype UpdateRowsEventData<V> = UpdateRowsEventData(includedColumns: BitSet, rows: seq<Row<V>>)

  /** A binlog event with its table: the table's column names by index, and the data. */
  datatype RawBinlogEvent<V> = RawBinlogEvent(schema: seq<string>, data: UpdateRowsEventData<V>)

  /** Every included column has a name, and, when there is an after-image, a value. */
  ghost predicate InRange<V>(schema: seq<string>, mask: BitSet, after: Option<seq<V>>)
  {
    forall i :: 0 <= i < |mask| && mask[i] ==>
      i < |schema| && (after.Some? ==> i < |after.value|)
  }

  ghost predicate AllInRange<V>(schema: seq<string>, mask: BitSet, rows: seq<Row<V>>)
  {
    forall k :: 0 <= k < |rows| ==> InRange(schema, mask, rows[k].after)
  }

  /** No two columns share a name. */
  ghost predicate DistinctNames(schema: seq<string>)
  {
    forall p, q :: 0 <= p < q < |schema| ==> schema[p] != schema[q]
  }

  /** The field writeRow writes for included column i: none without an after-image. */
  function ColumnField<V, W>(schema: seq<string>, after: Option<seq<V>>, i: nat, normalize: V -> W): seq<Token<W>>
    requires i < |schema| && (after.Some? ==> i < |after.value|)
  {
    if after.Some? then [ObjectField(schema[i], normalize(after.value[i]))] else []
  }

  /** The fields for the included columns below n, in column order. */
  function FieldsBelow<V, W>(schema: seq<string>, mask: BitSet, after: Option<seq<V>>, n: nat, normalize: V -> W)
    : (fs: seq<Token<W>>)
    requires InRange(schema, mask, after)
    requires n <= |mask|
    ensures forall k :: 0 <= k < |fs| ==> fs[k].ObjectField?
    decreases n
  {
    if n == 0 then []
    else
      FieldsBelow(schema, mask, after, n - 1, normalize)
        + (if mask[n - 1] then ColumnField(schema, after, n - 1, normalize) else [])
  }

  /** A well-bracketed "rows" payload: one array named "rows" holding one object
      made of fields only. */
  ghost predicate IsRowsPayload<W>(ts: seq<Token<W>>)
  {
    && |ts| >= 4
    && ts[0] == ArrayFieldStart("rows")
    && ts[1] == StartObject
    && ts[|ts| - 2] == EndObject
    && ts[|ts| - 1] == EndArray
    && forall k :: 2 <= k < |ts| - 2 ==> ts[k].ObjectField?
  }

  /** The fields of the object inside a "rows" payload. */
  function PayloadFields<W>(ts: seq<Token<W>>): seq<Token<W>>
    requires IsRowsPayload(ts)
  {
    ts[2..|ts| - 2]
  }

  /** What writeRow writes for a row whose after-image is `after`: the fields of the
      included columns, in ascending column order, inside the "rows" array. */
  function RowDocument<V, W>(schema: seq<string>, mask: BitSet, after: Option<seq<V>>, normalize: V -> W): (doc: seq<Token<W>>)
    requires InRange(schema, mask, after)
    ensures IsRowsPayload(doc)
  {
    [ArrayFieldStart("rows"), StartObject] + FieldsBelow(schema, mask, after, |mask|, normalize) + [EndObject, EndArray]
  }

  /** The fields written once the nextSetBit cursor is at `i`: those of the included
      columns below i, or all of them once the cursor is -1. */
  function WalkFields<V, W>(schema: seq<string>, mask: BitSet, after: Option<seq<V>>, i: int, normalize: V -> W)
    : seq<Token<W>>
    requires InRange(schema, mask, after)
    requires i == -1 || 0 <= i <= |mask|
  {
    FieldsBelow(schema, mask, after, if i == -1 then |mask| else i, normalize)
  }

  /** Clear bits add no field. */
  lemma {:induction false} FieldsSkipClear<V, W>(schema: seq<string>, mask: BitSet, after: Option<seq<V>>,
                                                 a: nat, b: nat, normalize: V -> W)
    requires InRange(schema, mask, after)
    requires a <= b <= |mask|
    requires forall j :: a <= j < b ==> !mask[j]
    ensures FieldsBelow(schema, mask, after, b, normalize) == FieldsBelow(schema, mask, after, a, normalize)
    decreases b - a
  {
    if a < b {
      FieldsSkipClear(schema, mask, after, a, b - 1, normalize);
    }
  }

  /** The walk starts with no field written and ends with all of RowDocument's fields. */
  lemma WalkBounds<V, W>(schema: seq<string>, mask: BitSet, after: Option<seq<V>>, normalize: V -> W)
    requires InRange(schema, mask, after)
    ensures WalkFields(schema, mask, after, NextSetBit(mask, 0), normalize) == []
    ensures RowDocument(schema, mask, after, normalize)
         == [ArrayFieldStart("rows"), StartObject] + WalkFields(schema, mask, after, -1, normalize) + [EndObject, EndArray]
  {
    var r := NextSetBit(mask, 0);
    FieldsSkipClear(schema, mask, after, 0, if r == -1 then |mask| else r, normalize);
  }

  /** Moving the cursor from set index i to nextSetBit(i + 1) writes the field of
      column i, when there is an after-image, and nothing else. */
  lemma WalkFieldsStep<V, W>(schema: seq<string>, mask: BitSet, after: Option<seq<V>>, i: nat, normalize: V -> W)
    requires InRange(schema, mask, after)
    requires i < |mask| && mask[i]
    ensures WalkFields(schema, mask, after, NextSetBit(mask, i + 1), normalize)
         == WalkFields(schema, mask, after, i, normalize) + ColumnField(schema, after, i, normalize)
  {
    var r := NextSetBit(mask, i + 1);
    FieldsSkipClear(schema, mask, after, i + 1, if r == -1 then |mask| else r, normalize);
  }

  /** Reference definition of the projection: the field of each listed column index,
      in list order. */
  function FieldTokens<V, W>(schema: seq<string>, a: seq<V>, idx: seq<nat>, normalize: V -> W): seq<Token<W>>
    requires forall k :: 0 <= k < |idx| ==> idx[k] < |schema| && idx[k] < |a|
  {
    seq(|idx|, k requires 0 <= k < |idx| => ObjectField(schema[idx[k]], normalize(a[idx[k]])))
  }

  /** With an after-image, the fields below n are the reference projection of the
      set indices below n. */
  lemma {:induction false} FieldsEnumerateSetBits<V, W>(schema: seq<string>, mask: BitSet, a: seq<V>, n: nat, normalize: V -> W)
    requires InRange(schema, mask, Some(a))
    requires n <= |mask|
    ensures FieldsBelow(schema, mask, Some(a), n, normalize) == FieldTokens(schema, a, SetBitsBelow(mask, n), normalize)
    decreases n
  {
    if n > 0 {
      FieldsEnumerateSetBits(schema, mask, a, n - 1, normalize);
      var idx := SetBitsBelow(mask, n - 1);
      if mask[n - 1] {
        assert SetBitsBelow(mask, n) == idx + [n - 1];
        assert FieldTokens(schema, a, idx + [n - 1], normalize)
            == FieldTokens(schema, a, idx, normalize) + [ObjectField(schema[n - 1], normalize(a[n - 1]))];
      }
    }
  }

  /** Without an after-image no field is written below any n. */
  lemma {:induction false} NoFieldsWithoutAfterImage<V, W>(schema: seq<string>, mask: BitSet, n: nat, normalize: V -> W)
    requires InRange<V>(schema, mask, None)
    requires n <= |mask|
    ensures FieldsBelow<V, W>(schema, mask, None, n, normalize) == []
    decreases n
  {
    if n > 0 {
      NoFieldsWithoutAfterImage(schema, mask, n - 1, normalize);
    }
  }

  /** Without an after-image the object is empty, but the "rows" array and the
      object are still opened and closed. */
  lemma AbsentAfterImage<V, W>(schema: seq<string>, mask: BitSet, normalize: V -> W)
    requires InRange<V>(schema, mask, None)
    ensures PayloadFields(RowDocument<V, W>(schema, mask, None, normalize)) == []
    ensures RowDocument<V, W>(schema, mask, None, normalize) == [ArrayFieldStart("rows"), StartObject, EndObject, EndArray]
  {
    NoFieldsWithoutAfterImage(schema, mask, |mask|, normalize);
  }

  /** With an after-image, the k-th field is the k-th included column in ascending
      column order: its name from the schema, its value the normalized after-image entry. */
  lemma ProjectedFields<V, W>(schema: seq<string>, mask: BitSet, a: seq<V>, normalize: V -> W)
    requires InRange(schema, mask, Some(a))
    ensures Ascending(SetBits(mask))
    ensures |PayloadFields(RowDocument(schema, mask, Some(a), normalize))| == |SetBits(mask)|
    ensures forall k :: 0 <= k < |SetBits(mask)| ==>
              PayloadFields(RowDocument(schema, mask, Some(a), normalize))[k]
              == ObjectField(schema[SetBits(mask)[k]], normalize(a[SetBits(mask)[k]]))
  {
    SetBitsExact(mask);
    FieldsEnumerateSetBits(schema, mask, a, |mask|, normalize);
    var doc := RowDocument(schema, mask, Some(a), normalize);
    assert PayloadFields(doc) == FieldsBelow(schema, mask, Some(a), |mask|, normalize);
  }

  /** With distinct column names, a field list names column j exactly when j is one
      of its indices, and that field holds column j's normalized value. */
  lemma FieldNamed<V, W>(schema: seq<string>, a: seq<V>, idx: seq<nat>, normalize: V -> W, j: nat)
    requires forall k :: 0 <= k < |idx| ==> idx[k] < |schema| && idx[k] < |a|
    requires DistinctNames(schema)
    requires j < |schema|
    ensures (exists k :: 0 <= k < |FieldTokens(schema, a, idx, normalize)|
                         && FieldTokens(schema, a, idx, normalize)[k].name == schema[j])
            <==> j in idx
    ensures forall k :: 0 <= k < |FieldTokens(schema, a, idx, normalize)|
                        && FieldTokens(schema, a, idx, normalize)[k].name == schema[j]
                        ==> j < |a| && FieldTokens(schema, a, idx, normalize)[k]
                                       == ObjectField(schema[j], normalize(a[j]))
  {
    var fs := FieldTokens(schema, a, idx, normalize);
    forall k | 0 <= k < |fs| && fs[k].name == schema[j]
      ensures idx[k] == j
    {
      assert fs[k] == ObjectField(schema[idx[k]], normalize(a[idx[k]]));
    }
    if j in idx {
      var k :| 0 <= k < |idx| && idx[k] == j;
      assert fs[k].name == schema[j];
    }
  }

  /** When column names are distinct, column j's name appears among the fields
      exactly when column j is included and there is an after-image; the field then
      carries the normalized after-image value of column j. */
  lemma FieldPresentIff<V, W>(schema: seq<string>, mask: BitSet, after: Option<seq<V>>, normalize: V -> W, j: nat)
    requires InRange(schema, mask, after)
    requires DistinctNames(schema)
    requires j < |schema|
    ensures var fs := PayloadFields(RowDocument(schema, mask, after, normalize));
            (exists k :: 0 <= k < |fs| && fs[k].name == schema[j]) <==> after.Some? && j < |mask| && mask[j]
    ensures var fs := PayloadFields(RowDocument(schema, mask, after, normalize));
            forall k :: 0 <= k < |fs| && fs[k].name == schema[j] ==>
              after.Some? && j < |after.value| && fs[k] == ObjectField(schema[j], normalize(after.value[j]))
  {
    var fs := PayloadFields(RowDocument(schema, mask, after, normalize));
    assert fs == FieldsBelow(schema, mask, after, |mask|, normalize);
    if after.Some? {
      SetBitsExact(mask);
      FieldsEnumerateSetBits(schema, mask, after.value, |mask|, normalize);
      FieldNamed(schema, after.value, SetBits(mask), normalize, j);
    } else {
      AbsentAfterImage(schema, mask, normalize);
    }
  }

  /** One document of writeEvent's result: the row payload inside the envelope. */
  function Envelope<W>(payload: seq<Token<W>>): seq<Token<W>>
  {
    [EnvelopeStart] + payload + [EnvelopeEnd]
  }

  /** How many rows are written when `ioFails` says which rows raise an IOException. */
  function WrittenCount(ioFails: seq<bool>): (n: nat)
    ensures n <= |ioFails|
    decreases |ioFails|
  {
    if ioFails == [] then 0
    else WrittenCount(ioFails[..|ioFails| - 1]) + (if ioFails[|ioFails| - 1] then 0 else 1)
  }

  /** What writeEvent returns: one document per row that does not fail, in row order,
      every row projected with the same included-columns mask. */
  function EventItems<V, W>(schema: seq<string>, mask: BitSet, rows: seq<Row<V>>, ioFails: seq<bool>, normalize: V -> W)
    : (items: seq<seq<Token<W>>>)
    requires |ioFails| == |rows|
    requires AllInRange(schema, mask, rows)
    ensures |items| == WrittenCount(ioFails)
    decreases |rows|
  {
    if rows == [] then []
    else
      var n := |rows| - 1;
      EventItems(schema, mask, rows[..n], ioFails[..n], normalize)
        + (if ioFails[n] then [] else [Envelope(RowDocument(schema, mask, rows[n].after, normalize))])
  }

  /** Extending the rows seen by one row extends the documents by that row's
      document, unless the row fails. */
  lemma EventItemsStep<V, W>(schema: seq<string>, mask: BitSet, rows: seq<Row<V>>, ioFails: seq<bool>,
                             normalize: V -> W, k: nat)
    requires |ioFails| == |rows|
    requires AllInRange(schema, mask, rows)
    requires k < |rows|
    ensures AllInRange(schema, mask, rows[..k]) && AllInRange(schema, mask, rows[..k + 1])
    ensures InRange(schema, mask, rows[k].after)
    ensures EventItems(schema, mask, rows[..k + 1], ioFails[..k + 1], normalize)
         == EventItems(schema, mask, rows[..k], ioFails[..k], normalize)
            + (if ioFails[k] then [] else [Envelope(RowDocument(schema, mask, rows[k].after, normalize))])
  {
    assert rows[..k + 1][..k] == rows[..k];
    assert ioFails[..k + 1][..k] == ioFails[..k];
  }

  /** Every row is written exactly when no row fails. */
  lemma {:induction false} AllWrittenIff(ioFails: seq<bool>)
    ensures WrittenCount(ioFails) == |ioFails| <==> forall k :: 0 <= k < |ioFails| ==> !ioFails[k]
    decreases |ioFails|
  {
    if ioFails != [] {
      var n := |ioFails| - 1;
      AllWrittenIff(ioFails[..n]);
      assert forall k :: 0 <= k < n ==> ioFails[..n][k] == ioFails[k];
    }
  }

  /** A row that does not fail comes out at the position given by the number of rows
      written before it. */
  lemma {:induction false} EventItemAt<V, W>(schema: seq<string>, mask: BitSet, rows: seq<Row<V>>, ioFails: seq<bool>,
                                             normalize: V -> W, k: nat)
    requires |ioFails| == |rows|
    requires AllInRange(schema, mask, rows)
    requires k < |rows| && !ioFails[k]
    ensures WrittenCount(ioFails[..k]) < |EventItems(schema, mask, rows, ioFails, normalize)|
    ensures EventItems(schema, mask, rows, ioFails, normalize)[WrittenCount(ioFails[..k])]
         == Envelope(RowDocument(schema, mask, rows[k].after, normalize))
    decreases |rows|
  {
    var n := |rows| - 1;
    assert AllInRange(schema, mask, rows[..n]) by {
      forall m | 0 <= m < n ensures InRange(schema, mask, rows[..n][m].after) {
        assert rows[..n][m] == rows[m];
      }
    }
    var prev := EventItems(schema, mask, rows[..n], ioFails[..n], normalize);
    var last := if ioFails[n] then [] else [Envelope(RowDocument(schema, mask, rows[n].after, normalize))];
    assert EventItems(schema, mask, rows, ioFails, normalize) == prev + last;
    if k < n {
      EventItemAt(schema, mask, rows[..n], ioFails[..n], normalize, k);
      assert ioFails[..n][..k] == ioFails[..k];
      assert rows[..n][k] == rows[k];
      assert (prev + last)[WrittenCount(ioFails[..k])] == prev[WrittenCount(ioFails[..k])];
    } else {
      assert ioFails[..k] == ioFails[..n];
      assert (prev + last)[|prev|] == last[0];
    }
  }

  /** Rows written keep their input order: an earlier row that does not fail lands
      strictly before any later row. */
  lemma {:induction false} WrittenInOrder(ioFails: seq<bool>, k1: nat, k2: nat)
    requires k1 < k2 <= |ioFails| && !ioFails[k1]
    ensures WrittenCount(ioFails[..k1]) < WrittenCount(ioFails[..k2])
    decreases k2
  {
    assert ioFails[..k2][..k2 - 1] == ioFails[..k2 - 1];
    if k1 < k2 - 1 {
      WrittenInOrder(ioFails, k1, k2 - 1);
    } else {
      assert ioFails[..k2][k2 - 1] == ioFails[k1];
    }
  }

  /** writeEvent never reads a before-image: two events whose rows have the same
      after-images yield the same documents. */
  lemma {:induction false} BeforeImageIgnored<V, W>(schema: seq<string>, mask: BitSet, rows1: seq<Row<V>>,
                                                    rows2: seq<Row<V>>, ioFails: seq<bool>, normalize: V -> W)
    requires |ioFails| == |rows1| == |rows2|
    requires AllInRange(schema, mask, rows1)
    requires forall k :: 0 <= k < |rows1| ==> rows1[k].after == rows2[k].after
    ensures AllInRange(schema, mask, rows2)
    ensures EventItems(schema, mask, rows1, ioFails, normalize) == EventItems(schema, mask, rows2, ioFails, normalize)
    decreases |rows1|
  {
    assert AllInRange(schema, mask, rows2) by {
      forall k | 0 <= k < |rows2| ensures InRange(schema, mask, rows2[k].after) {
        assert rows1[k].after == rows2[k].after;
      }
    }
    if rows1 != [] {
      var n := |rows1| - 1;
      EventItemsStep(schema, mask, rows1, ioFails, normalize, n);
      EventItemsStep(schema, mask, rows2, ioFails, normalize, n);
      BeforeImageIgnored(schema, mask, rows1[..n], rows2[..n], ioFails[..n], normalize);
      assert rows1[..n + 1] == rows1 && rows2[..n + 1] == rows2 && ioFails[..n + 1] == ioFails;
    }
  }

  /** Columns id, name, age with only id and age included: the name is left out and
      the other two appear in column order. */
  lemma ProjectionExample()
    ensures RowDocument(["id", "name", "age"], [true, false, true], Some(["7", "ignored", "30"]), (v: string) => v)
         == [ArrayFieldStart("rows"), StartObject, ObjectField("id", "7"), ObjectField("age", "30"), EndObject, EndArray]
  {
    var schema, mask, after := ["id", "name", "age"], [true, false, true], Some(["7", "ignored", "30"]);
    var id := (v: string) => v;
    assert FieldsBelow(schema, mask, after, 1, id) == [ObjectField("id", "7")];
    assert FieldsBelow(schema, mask, after, 2, id) == [ObjectField("id", "7")];
  }

  /** The same columns, all included, without an after-image: an empty object. */
  lemma AbsentAfterImageExample()
    ensures RowDocument<string, string>(["id", "name", "age"], [true, true, true], None, (v: string) => v)
         == [ArrayFieldStart("rows"), StartObject, EndObject, EndArray]
  {
    AbsentAfterImage<string, string>(["id", "name", "age"], [true, true, true], (v: string) => v);
  }
}
