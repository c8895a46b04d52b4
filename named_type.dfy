/**
 * The type resolver: a Go type expression becomes an OpenAPI schema node.
 * Identifiers go through the primitive table (and, under a selector, the
 * external-type table); anything else an identifier can name becomes a
 * reference to a registered schema.
 */
module NamedType {
  import opened Wrappers
  import opened GoStrings
  import opened GoAst
  import opened Schemas
  import opened IdentProperty
  import opened JsonTag

  /** The error of a map whose key or value cannot be resolved, or whose key is not a string or an integer. */
  const MapNotSupported: string := "expr not yet unsupported"

  /** The error of an expression kind the resolver has no case for. */
  const KindNotSupported: string := "expr is unsupported for a schema"

  /** A node holding only a reference to the schema registered under `name`. */
  function RefTo(name: string): (r: Schema)
    ensures IsBareRef(r) && r.ref == RefPrefix + name && r.meta == Metadata(name, "")
  {
    EmptySchema.(ref := RefPrefix + name, meta := Metadata(name, ""))
  }

  /**
   * The `items` map of an array whose element resolved to `cp`: the
   * element's type (with its own `items` and `properties` when it has
   * them), and its reference.  The element's format is not carried over.
   */
  function ElementItems(cp: Schema): (m: map<string, ItemValue>)
    ensures "type" in m <==> cp.typ != ""
    ensures "type" in m ==> m["type"] == ItemText(cp.typ)
    ensures "items" in m <==> cp.typ != "" && |cp.items| != 0
    ensures "items" in m ==> m["items"] == ItemItems(cp.items)
    ensures "properties" in m <==> cp.typ != "" && |cp.properties| != 0
    ensures "properties" in m ==> m["properties"] == ItemProperties(cp.properties)
    ensures "$ref" in m <==> cp.ref != ""
    ensures "$ref" in m ==> m["$ref"] == ItemText(cp.ref)
    ensures m.Keys <= {"type", "items", "properties", "$ref"}
  {
    var withType: map<string, ItemValue> := if cp.typ != "" then map["type" := ItemText(cp.typ)] else map[];
    var withItems := if cp.typ != "" && |cp.items| != 0 then withType["items" := ItemItems(cp.items)] else withType;
    var withProperties :=
      if cp.typ != "" && |cp.properties| != 0 then withItems["properties" := ItemProperties(cp.properties)] else withItems;
    if cp.ref != "" then withProperties["$ref" := ItemText(cp.ref)] else withProperties
  }

  /** The node of an array whose element resolved to `cp`: byte slices collapse to a binary string. */
  function ArrayOf(cp: Schema): (r: Schema)
    ensures cp.format == "binary" ==> r == EmptySchema.(typ := "string", format := "binary")
    ensures cp.format != "binary" ==> r == EmptySchema.(typ := "array", items := ElementItems(cp))
  {
    if cp.format == "binary" then EmptySchema.(typ := "string", format := "binary")
    else EmptySchema.(typ := "array", items := ElementItems(cp))
  }

  /**
   * `parseNamedType(expr, sel)`: the schema node of a type expression, with
   * `sel` the selector of an enclosing `X.Sel` (None at the top).  The
   * external-type table and the tag library are parameters.  Reference
   * nodes never carry anything besides the reference, and every reference
   * the resolver writes points into the schema components.
   */
  function ParseNamedType(expr: TypeExpr, sel: Option<string>, ext: ExternalTypes, tags: TagSyntax): (r: Result<Schema, string>)
    ensures r.Success? && r.value.ref != "" ==> IsBareRef(r.value) && HasPrefix(r.value.ref, RefPrefix)
    ensures r.Success? ==> r.value.meta.customName == ""
    ensures expr.Ident? ==> r.Success?
    decreases expr, 1
  {
    match expr
    case Ident(name) =>
      var p := ParseIdentProperty(name, sel, ext);
      if p.err.Some? then
        Success(RefTo(if sel.Some? then sel.value else p.typ))
      else
        Success(EmptySchema.(typ := p.typ, format := p.format))
    case Star(x) =>
      var t :- ParseNamedType(x, sel, ext, tags);
      Success(if t.ref == "" then t.(nullable := true) else t)
    case ArrayType(elt) =>
      var cp :- ParseNamedType(elt, sel, ext, tags);
      Success(ArrayOf(cp))
    case StructType(fields) =>
      if |fields| == 0 then Success(EmptySchema.(typ := "object"))
      else
        var j := JsonTagOf(fields[0], tags);
        if j.err.Some? then Failure(j.err.value)
        else StructProperties(fields, 0, j.info.name, map[], ext, tags)
    case SelectorExpr(x, s) =>
      ParseNamedType(x, Some(s), ext, tags)
    case MapType(key, value) =>
      var k := ParseNamedType(key, sel, ext, tags);
      var v := ParseNamedType(value, sel, ext, tags);
      if k.Failure? || v.Failure? || (k.value.typ != "string" && k.value.typ != "integer") then
        Failure(MapNotSupported)
      else
        Success(EmptySchema.(typ := "object", additionalProperties := Some(v.value)))
    case InterfaceType =>
      Success(EmptySchema.(ref := AnyValueRef))
    case Unsupported =>
      Failure(KindNotSupported)
  }

  /**
   * The field loop of the struct case from field `i` on: every field's type
   * is resolved (without a selector) and stored under `name`, the key the
   * FIRST field's tag gives; the first field whose type fails fails the struct.
   */
  function StructProperties(fields: seq<Field>, i: nat, name: string, acc: map<string, Schema>,
                            ext: ExternalTypes, tags: TagSyntax): (r: Result<Schema, string>)
    requires i <= |fields|
    ensures r.Success? ==> r.value.typ == "object" && r.value.ref == "" && r.value.meta.customName == ""
    ensures r.Success? ==> r.value.properties.Keys <= acc.Keys + {name}
    decreases StructType(fields), 0, |fields| - i
  {
    if i == |fields| then Success(EmptySchema.(typ := "object", properties := acc))
    else
      assert fields[i] < StructType(fields);
      var pnt :- ParseNamedType(fields[i].typ, None, ext, tags);
      StructProperties(fields, i + 1, name, acc[name := pnt], ext, tags)
  }

  /**
   * An identifier is never an error: a table name (or an external type
   * under a selector) gives its type and format; anything else becomes a
   * reference named after the selector, or after the (empty) type the
   * primitive table returns on a miss.
   */
  lemma IdentResolution(name: string, sel: Option<string>, ext: ExternalTypes, tags: TagSyntax)
    ensures var p := ParseIdentProperty(name, sel, ext);
      ParseNamedType(Ident(name), sel, ext, tags) ==
        if p.err.None? then Success(EmptySchema.(typ := p.typ, format := p.format))
        else if sel.Some? then Success(RefTo(sel.value))
        else Success(RefTo(""))
  {
  }

  /** A table name resolves to a value node without a reference. */
  lemma TableIdent(name: string, sel: Option<string>, ext: ExternalTypes, tags: TagSyntax)
    requires InTable(name)
    ensures ParseNamedType(Ident(name), sel, ext, tags).Success?
    ensures ParseNamedType(Ident(name), sel, ext, tags).value.ref == ""
    ensures ParseNamedType(Ident(name), sel, ext, tags).value.typ != ""
  {
  }

  /**
   * An unknown identifier outside a selector becomes the reference with an
   * empty name: the primitive table no longer reports the identifier's own
   * name on a miss.
   */
  lemma UnknownIdentEmptyRef(name: string, ext: ExternalTypes, tags: TagSyntax)
    requires !InTable(name)
    ensures ParseNamedType(Ident(name), None, ext, tags) == Success(RefTo(""))
    ensures ParseNamedType(Ident(name), None, ext, tags).value.ref == "#/components/schemas/"
  {
  }

  /** `pkg.Pet`, with nothing for it in the external table, references the schema `Pet`. */
  lemma QualifiedUnknownIdent(pkg: string, name: string, sel: Option<string>, ext: ExternalTypes, tags: TagSyntax)
    requires !InTable(pkg) && ExternalLookup(pkg, name, ext).None?
    ensures ParseNamedType(SelectorExpr(Ident(pkg), name), sel, ext, tags) == Success(RefTo(name))
  {
  }

  /** The selector reaches an identifier through pointers, arrays and maps. */
  lemma SelectorReachesElements(pkg: string, name: string, ext: ExternalTypes, tags: TagSyntax)
    requires !InTable(pkg) && ExternalLookup(pkg, name, ext).None?
    ensures ParseNamedType(SelectorExpr(Star(Ident(pkg)), name), None, ext, tags) == Success(RefTo(name))
    ensures ParseNamedType(SelectorExpr(ArrayType(Ident(pkg)), name), None, ext, tags)
         == Success(EmptySchema.(typ := "array", items := map["$ref" := ItemText(RefPrefix + name)]))
  {
    assert ParseNamedType(Ident(pkg), Some(name), ext, tags) == Success(RefTo(name));
    assert ElementItems(RefTo(name)) == map["$ref" := ItemText(RefPrefix + name)];
  }

  /**
   * A pointer propagates its target's error; otherwise it is its target,
   * made nullable unless the target is a reference.
   */
  lemma PointerNullable(x: TypeExpr, sel: Option<string>, ext: ExternalTypes, tags: TagSyntax)
    ensures var t := ParseNamedType(x, sel, ext, tags);
      var r := ParseNamedType(Star(x), sel, ext, tags);
      && (r.Failure? <==> t.Failure?)
      && (t.Failure? ==> r.error == t.error)
      && (t.Success? ==> r.value.nullable == (t.value.ref == "" || t.value.nullable))
      && (t.Success? ==> r.value.(nullable := false) == t.value.(nullable := false))
  {
  }

  /** A reference is never made nullable, however many pointers wrap it. */
  lemma PointerToRefNotNullable(x: TypeExpr, sel: Option<string>, ext: ExternalTypes, tags: TagSyntax)
    requires ParseNamedType(x, sel, ext, tags).Success? && ParseNamedType(x, sel, ext, tags).value.ref != ""
    ensures ParseNamedType(Star(x), sel, ext, tags) == ParseNamedType(x, sel, ext, tags)
    ensures !ParseNamedType(Star(x), sel, ext, tags).value.nullable
  {
  }

  /** A slice of a binary element (`[]byte`) collapses to a binary string. */
  lemma ArrayBinaryCollapse(elt: TypeExpr, sel: Option<string>, ext: ExternalTypes, tags: TagSyntax)
    requires ParseNamedType(elt, sel, ext, tags).Success?
    requires ParseNamedType(elt, sel, ext, tags).value.format == "binary"
    ensures ParseNamedType(ArrayType(elt), sel, ext, tags) == Success(EmptySchema.(typ := "string", format := "binary"))
  {
  }

  /** `[]byte` in particular is a binary string, `[]int64` an array of integers without the format. */
  lemma ByteAndIntSlices(sel: Option<string>, ext: ExternalTypes, tags: TagSyntax)
    ensures ParseNamedType(ArrayType(Ident("byte")), sel, ext, tags) == Success(EmptySchema.(typ := "string", format := "binary"))
    ensures ParseNamedType(ArrayType(Ident("int64")), sel, ext, tags)
         == Success(EmptySchema.(typ := "array", items := map["type" := ItemText("integer")]))
  {
    TableEntries(sel, ext);
    assert ElementItems(EmptySchema.(typ := "integer", format := "int64")) == map["type" := ItemText("integer")];
  }

  /**
   * A map resolves exactly when its key and value resolve and the key is a
   * string or an integer; it is then an object whose additional properties
   * are the value's node.
   */
  lemma MapResolution(key: TypeExpr, value: TypeExpr, sel: Option<string>, ext: ExternalTypes, tags: TagSyntax)
    ensures var k := ParseNamedType(key, sel, ext, tags);
      var v := ParseNamedType(value, sel, ext, tags);
      var r := ParseNamedType(MapType(key, value), sel, ext, tags);
      && (r.Success? <==> k.Success? && v.Success? && k.value.typ in {"string", "integer"})
      && (r.Success? ==> r.value == EmptySchema.(typ := "object", additionalProperties := Some(v.value)))
      && (r.Failure? ==> r.error == MapNotSupported)
  {
  }

  /** `interface{}` references the "AnyValue" schema, and unsupported kinds are errors. */
  lemma InterfaceAndUnsupported(sel: Option<string>, ext: ExternalTypes, tags: TagSyntax)
    ensures ParseNamedType(InterfaceType, sel, ext, tags) == Success(EmptySchema.(ref := AnyValueRef))
    ensures ParseNamedType(Unsupported, sel, ext, tags) == Failure(KindNotSupported)
  {
  }

  /** The struct loop stores every property under the one given name, the last field's node winning. */
  lemma {:induction false} StructPropertiesLast(fields: seq<Field>, i: nat, name: string, acc: map<string, Schema>,
                                                ext: ExternalTypes, tags: TagSyntax)
    requires i < |fields|
    requires StructProperties(fields, i, name, acc, ext, tags).Success?
    ensures ParseNamedType(fields[|fields| - 1].typ, None, ext, tags).Success?
    ensures StructProperties(fields, i, name, acc, ext, tags).value.properties
         == acc[name := ParseNamedType(fields[|fields| - 1].typ, None, ext, tags).value]
    decreases |fields| - i
  {
    assert fields[i] < StructType(fields);
    var pnt := ParseNamedType(fields[i].typ, None, ext, tags);
    if i + 1 < |fields| {
      StructPropertiesLast(fields, i + 1, name, acc[name := pnt.value], ext, tags);
    }
  }

  /**
   * A resolved struct has at most one property: every field is stored under
   * the key of the first field's tag, so the last field's node is the only
   * one left.
   */
  lemma StructSingleProperty(fields: seq<Field>, sel: Option<string>, ext: ExternalTypes, tags: TagSyntax)
    requires ParseNamedType(StructType(fields), sel, ext, tags).Success?
    ensures var r := ParseNamedType(StructType(fields), sel, ext, tags).value;
      && r.typ == "object"
      && |r.properties| <= 1
      && (|fields| > 0 ==>
            && ParseNamedType(fields[|fields| - 1].typ, None, ext, tags).Success?
            && r.properties == map[JsonTagOf(fields[0], tags).info.name := ParseNamedType(fields[|fields| - 1].typ, None, ext, tags).value])
  {
    if |fields| > 0 {
      StructPropertiesLast(fields, 0, JsonTagOf(fields[0], tags).info.name, map[], ext, tags);
    }
  }

  /** A struct whose first field's tag is malformed is an error, whatever its fields' types. */
  lemma StructTagError(fields: seq<Field>, sel: Option<string>, ext: ExternalTypes, tags: TagSyntax)
    requires |fields| > 0 && JsonTagOf(fields[0], tags).err.Some?
    ensures ParseNamedType(StructType(fields), sel, ext, tags) == Failure(JsonTagOf(fields[0], tags).err.value)
  {
  }
}
