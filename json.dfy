/** The streaming JSON generator the writers share, seen as the list of tokens it
    has been asked to write. Rendering the tokens as text is not modelled. */
module Json {

  /** One call on the generator. EnvelopeStart and EnvelopeEnd stand for what the
      writer's startJson and endJson write around a row's payload. */
  datatype Token<W> =
    | EnvelopeStart
    | ArrayFieldStart(name: string)
    | StartObject
    | ObjectField(name: string, value: W)
    | EndObject
    | EndArray
    | EnvelopeEnd

  class JsonGenerator<W> {
    /** Everything written so far, oldest first. */
    var tokens: seq<Token<W>>

    constructor ()
      ensures tokens == []
    {
      tokens := [];
    }

    method WriteEnvelopeStart()
      modifies this
      ensures tokens == old(tokens) + [EnvelopeStart]
    {
      tokens := tokens + [EnvelopeStart];
    }

    /** writeArrayFieldStart: a field whose value is an array, left open. */
    method WriteArrayFieldStart(name: string)
      modifies this
      ensures tokens == old(tokens) + [ArrayFieldStart(name)]
    {
      tokens := tokens + [ArrayFieldStart(name)];
    }

    method WriteStartObject()
      modifies this
      ensures tokens == old(tokens) + [StartObject]
    {
      tokens := tokens + [StartObject];
    }

    method WriteObjectField(name: string, value: W)
      modifies this
      ensures tokens == old(tokens) + [ObjectField(name, value)]
    {
      tokens := tokens + [ObjectField(name, value)];
    }

    method WriteEndObject()
      modifies this
      ensures tokens == old(tokens) + [EndObject]
    {
      tokens := tokens + [EndObject];
    }

    method WriteEndArray()
      modifies this
      ensures tokens == old(tokens) + [EndArray]
    {
      tokens := tokens + [EndArray];
    }

    method WriteEnvelopeEnd()
      modifies this
      ensures tokens == old(tokens) + [EnvelopeEnd]
    {
      tokens := tokens + [EnvelopeEnd];
    }
  }
}
