/**
 * The schema values the compiler builds: OpenAPI schema nodes, the composed
 * (`allOf`) form, and the entries of the schema registry.
 */
module Schemas {
  import opened Wrappers

  /** Every schema reference has this shape, followed by the schema's name. */
  const RefPrefix: string := "#/components/schemas/"

  /** The reference every `interface{}` resolves to. */
  const AnyValueRef: string := "#/components/schemas/AnyValue"

  const AnyValueName: string := "AnyValue"

  const AnyValueDescription: string := "Can be anything: string, number, array, object, etc., including `null`"

  /** The declared (real) name of a schema and the name it is published under, when overridden. */
  datatype Metadata = Metadata(realName: string, customName: string)

  const NoMetadata: Metadata := Metadata("", "")

  /** An example value after conversion: integers, unsigned integers, floats (by their text) or text. */
  datatype Example = ExampleInt(i: int) | ExampleUint(u: nat) | ExampleFloat(literal: string) | ExampleText(text: string)

  /** A value of an array schema's `items` map: a string, a nested `items` map, or a `properties` map. */
  datatype ItemValue =
    | ItemText(text: string)
    | ItemItems(items: map<string, ItemValue>)
    | ItemProperties(properties: map<string, Schema>)

  /**
   * One schema node.  An empty string stands for an absent `type`, `format`
   * or `$ref`; `nullable` is the presence of `nullable: true`; a nil map and
   * an empty map are the same value here.
   */
  datatype Schema = Schema(
    meta: Metadata,
    nullable: bool,
    required: seq<string>,
    typ: string,
    items: map<string, ItemValue>,
    format: string,
    ref: string,
    enum: seq<string>,
    properties: map<string, Schema>,
    additionalProperties: Option<Schema>,
    oneOf: seq<Schema>,
    example: Option<Example>)

  /** The zero schema, `schema{}`, which is also what `newEntity()` yields. */
  const EmptySchema: Schema := Schema(NoMetadata, false, [], "", map[], "", "", [], map[], None, [], None)

  /** A node that only references another schema carries nothing besides the reference. */
  predicate IsBareRef(s: Schema) {
    s.ref != "" && s.typ == "" && s.format == "" && !s.nullable && s.items == map[]
    && s.properties == map[] && s.additionalProperties.None? && s.enum == [] && s.required == []
  }

  /**
   * A registry entry (Go stores them as `interface{}`): a schema, a composed
   * schema, the typed nil `*schema` that an unsupported map declaration
   * leaves behind, or the plain description map of the "AnyValue" entry.
   */
  datatype Entity =
    | Plain(schema: Schema)
    | Composed(meta: Metadata, allOf: seq<Schema>)
    | NilSchema
    | Described(fields: map<string, string>)

  /** The entry implements the metadata interface (everything but the description map does). */
  predicate HasMetadata(e: Entity) {
    !e.Described?
  }

  /** `CustomName()`, which is nil-safe and yields "" on a nil schema. */
  function CustomName(e: Entity): string {
    match e
    case Plain(s) => s.meta.customName
    case Composed(m, _) => m.customName
    case NilSchema => ""
    case Described(_) => ""
  }

  /** `SetCustomName(name)`, a no-op on a nil schema and on the description map. */
  function SetCustomName(e: Entity, name: string): (r: Entity)
    ensures HasMetadata(r) == HasMetadata(e)
    ensures !e.NilSchema? && HasMetadata(e) ==> CustomName(r) == name
    ensures e.NilSchema? || e.Described? ==> r == e
    ensures e.Plain? ==> r.Plain? && r.schema.(meta := e.schema.meta) == e.schema && r.schema.meta.realName == e.schema.meta.realName
    ensures e.Composed? ==> r.Composed? && r.allOf == e.allOf && r.meta.realName == e.meta.realName
  {
    match e
    case Plain(s) => Plain(s.(meta := s.meta.(customName := name)))
    case Composed(m, all) => Composed(m.(customName := name), all)
    case NilSchema => NilSchema
    case Described(f) => Described(f)
  }

  /** The registry entry every document starts with. */
  const AnyValueEntity: Entity := Described(map["description" := AnyValueDescription])
}
