/**
 * The JSON:API helper: the primary-data schema of a resource gets the two
 * members every resource object carries, `id` and `type`.
 */
module JsonApi {
  import opened Schemas

  /** A schema node reached through a pointer, which the helper updates in place. */
  class SchemaNode {
    var value: Schema

    constructor (s: Schema)
      ensures value == s
    {
      value := s;
    }
  }

  /** The `id` member: a string. */
  const IdProperty: Schema := EmptySchema.(typ := "string")

  /** The `type` member: a string whose only allowed value is the resource type. */
  function TypeProperty(primaryType: string): (r: Schema)
    ensures r.typ == "string" && r.enum == [primaryType]
    ensures r.(enum := []) == IdProperty
  {
    EmptySchema.(typ := "string", enum := [primaryType])
  }

  /**
   * The data schema after the helper: `id` and `type` are set (replacing
   * any earlier members of those names), every other property is kept,
   * "id" and "type" are appended to the required names, and nothing else
   * changes.
   */
  function WithPrimaryFields(s: Schema, primaryType: string): (r: Schema)
    ensures r.properties.Keys == s.properties.Keys + {"id", "type"}
    ensures r.properties["id"] == IdProperty
    ensures r.properties["type"].typ == "string" && r.properties["type"].enum == [primaryType]
    ensures forall k :: k in s.properties && k != "id" && k != "type" ==> r.properties[k] == s.properties[k]
    ensures |r.required| == |s.required| + 2 && r.required[..|s.required|] == s.required
    ensures r.required[|s.required|..] == ["id", "type"]
    ensures r.(properties := s.properties, required := s.required) == s
  {
    s.(properties := s.properties["id" := IdProperty]["type" := TypeProperty(primaryType)],
       required := s.required + ["id", "type"])
  }

  /** `addPrimaryFieldToJSONAPIData`: the node's schema becomes `WithPrimaryFields` of what it was. */
  method AddPrimaryFieldToJSONAPIData(data: SchemaNode, primaryType: string)
    modifies data
    ensures data.value == WithPrimaryFields(old(data.value), primaryType)
  {
    data.value := data.value.(properties := data.value.properties["id" := IdProperty]);
    data.value := data.value.(properties := data.value.properties["type" := TypeProperty(primaryType)]);
    data.value := data.value.(required := data.value.required + ["id", "type"]);
  }

  /**
   * A second call leaves the properties as the first left them but appends
   * the two required names again: nothing removes duplicates.
   */
  lemma AddedTwice(s: Schema, primaryType: string)
    ensures WithPrimaryFields(WithPrimaryFields(s, primaryType), primaryType).properties
         == WithPrimaryFields(s, primaryType).properties
    ensures WithPrimaryFields(WithPrimaryFields(s, primaryType), primaryType).required
         == s.required + ["id", "type", "id", "type"]
  {
    var once := WithPrimaryFields(s, primaryType);
    var twice := WithPrimaryFields(once, primaryType);
    assert twice.required == once.required + ["id", "type"];
  }
}
