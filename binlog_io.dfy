/** The update-rows event writer: it turns each row of an update-rows binlog event
    into a JSON document through a shared JSON generator. */
module BinlogIo {
  import opened Wrappers
  import opened BitSets
  import opened Json
  import opened UpdateRows

  class UpdateRowsWriter<V, W> {
    /** The value conversion applied to every raw column value before it is written
        (getWritableObject); its rules are outside this model. */
    const normalize: V -> W
    /** The generator the writer's methods write through. */
    var jsonGenerator: JsonGenerator<W>

    constructor (normalize: V -> W)
      ensures this.normalize == normalize
      ensures fresh(jsonGenerator) && jsonGenerator.tokens == []
    {
      this.normalize := normalize;
      jsonGenerator := new JsonGenerator();
    }

    /** startJson: a fresh generator for the row's document, with the envelope opened. */
    method StartJson()
      modifies this
      ensures fresh(jsonGenerator) && jsonGenerator.tokens == [EnvelopeStart]
    {
      jsonGenerator := new JsonGenerator();
      jsonGenerator.WriteEnvelopeStart();
    }

    /** endJson: the envelope closed. */
    method EndJson()
      modifies jsonGenerator
      ensures jsonGenerator.tokens == old(jsonGenerator.tokens) + [EnvelopeEnd]
    {
      jsonGenerator.WriteEnvelopeEnd();
    }

    /** writeRow: walks the included columns with nextSetBit and writes, inside a
        "rows" array holding one object, one field per included column of the
        after-image. The before-image is not read. `visited` lists the column indices
        the loop visits, in visiting order. */
    method WriteRow(schema: seq<string>, row: Row<V>, includedColumns: BitSet) returns (ghost visited: seq<nat>)
      requires InRange(schema, includedColumns, row.after)
      modifies jsonGenerator
      ensures jsonGenerator.tokens
           == old(jsonGenerator.tokens) + RowDocument(schema, includedColumns, row.after, normalize)
      ensures visited == SetBits(includedColumns) && visited == Walk(includedColumns, 0)
    {
      var generator := jsonGenerator;
      generator.WriteArrayFieldStart("rows");
      var i := NextSetBit(includedColumns, 0);
      generator.WriteStartObject();
      ghost var prefix := generator.tokens;
      WalkBounds(schema, includedColumns, row.after, normalize);
      visited := [];
      VisitedStart(includedColumns);

      while i != -1
        invariant i == -1 || (0 <= i < |includedColumns| && includedColumns[i])
        invariant generator.tokens == prefix + WalkFields(schema, includedColumns, row.after, i, normalize)
        invariant visited == VisitedBefore(includedColumns, i)
        decreases if i == -1 then 0 else |includedColumns| - i
      {
        var columnName := schema[i];
        var newRow := row.after;
        if newRow.Some? {
          generator.WriteObjectField(columnName, normalize(newRow.value[i]));
        }
        WalkFieldsStep(schema, includedColumns, row.after, i, normalize);
        VisitedStep(includedColumns, i);
        visited := visited + [i];
        i := NextSetBit(includedColumns, i + 1);
      }
      generator.WriteEndObject();
      generator.WriteEndArray();
      WalkFromZero(includedColumns);
    }

    /** writeEvent: one document per row, in row order, all rows projected with the
        event's included columns. `ioFails[k]` says whether writing row k raises an
        IOException; such a row is dropped after its stack trace is printed and the
        loop goes on with the next row. */
    method WriteEvent(event: RawBinlogEvent<V>, ioFails: seq<bool>) returns (items: seq<seq<Token<W>>>)
      requires |ioFails| == |event.data.rows|
      requires AllInRange(event.schema, event.data.includedColumns, event.data.rows)
      modifies this
      ensures items == EventItems(event.schema, event.data.includedColumns, event.data.rows, ioFails, normalize)
      ensures |items| <= |event.data.rows|
    {
      var data := event.data;
      items := [];
      for k := 0 to |data.rows|
        invariant AllInRange(event.schema, data.includedColumns, data.rows[..k])
        invariant items == EventItems(event.schema, data.includedColumns, data.rows[..k], ioFails[..k], normalize)
      {
        EventItemsStep(event.schema, data.includedColumns, data.rows, ioFails, normalize, k);
        var row := data.rows[k];
        if !ioFails[k] {
          StartJson();
          var bitSet := data.includedColumns;
          ghost var visited := WriteRow(event.schema, row, bitSet);
          EndJson();
          items := items + [jsonGenerator.tokens];
        }
      }
      assert data.rows[..|data.rows|] == data.rows;
      assert ioFails[..|ioFails|] == ioFails;
    }
  }
}
