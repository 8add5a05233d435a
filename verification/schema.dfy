/** The part of the parsed JSON-Schema document the type generator reads
    (parser.rs, `Schema`). Keys keep document order: `properties` and
    `definitions` are insertion-ordered maps, modelled as sequences of
    key/schema pairs. */
module Schemas {
  import opened Base

  /** A JSON literal as it can appear in an `enum` list. A number is kept as
      the text its `Display` produces, which is all the generator uses. */
  datatype JsonValue =
    | JNull
    | JBool(b: bool)
    | JNumber(text: string)
    | JString(s: string)
    | JArray(elements: seq<JsonValue>)
    | JObject(members: seq<Member>)

  datatype Member = Member(key: string, value: JsonValue)

  /** `additionalProperties`: a flag, or a schema for the unlisted properties. */
  datatype AdditionalProperties = Flag(allowed: bool) | Constrained(schema: Schema)

  /** One entry of an ordered `properties` or `definitions` map. */
  datatype Property = Property(key: string, schema: Schema)

  datatype Schema = Schema(
    reference: Option<string>,                      // `$ref`
    definitions: seq<Property>,
    additionalProperties: Option<AdditionalProperties>,
    properties: seq<Property>,
    anyOf: seq<Schema>,
    items: Option<Schema>,
    enums: seq<JsonValue>,                          // `enum`
    instanceType: seq<string>,                      // `type`, one name or a list
    required: seq<string>)

  /** A schema with every keyword absent: what `{}` parses to. */
  const Empty: Schema := Schema(None, [], None, [], [], None, [], [], [])

  /** The `type` list read as a set, as the generator does before classifying. */
  function TypeSet(s: Schema): set<string>
  {
    set t | t in s.instanceType
  }
}
