/**
 * The older resolver kept in `docparser/parser.go`.  It differs from the
 * current one in several places, and it ignores the errors of its recursive
 * calls: a nil node then reaches a field access, which panics in Go.  Its
 * outcome therefore has three forms.
 */
module LegacyResolver {
  import opened Wrappers
  import opened GoStrings
  import opened GoAst
  import opened Schemas
  import opened IdentProperty
  import opened NamedType

  /** How a call of the legacy resolver ends: a node (or nil, with no error), an error, or a nil dereference. */
  datatype LegacyResult = Returned(node: Option<Schema>) | Errored(msg: string) | Panicked

  /**
   * The older primitive table: the same eleven names, no external-type
   * fallback, and on a miss the identifier's own name as the type.
   */
  function LegacyIdentProperty(name: string): (r: Primitive)
    ensures r.err.None? <==> InTable(name)
    ensures InTable(name) ==> r == ParseIdentProperty(name, None, map[])
    ensures !InTable(name) ==> r == Primitive(name, "", Some(CannotSetType(name)))
  {
    var p := ParseIdentProperty(name, None, map[]);
    if p.err.Some? then p.(typ := name) else p
  }

  /** The older `items` map of an array: the element's type and nested `items`, and its reference; never `properties`. */
  function LegacyElementItems(cp: Schema): (m: map<string, ItemValue>)
    ensures "properties" !in m
    ensures |cp.properties| == 0 ==> m == ElementItems(cp)
  {
    var withType: map<string, ItemValue> := if cp.typ != "" then map["type" := ItemText(cp.typ)] else map[];
    var withItems := if cp.typ != "" && |cp.items| != 0 then withType["items" := ItemItems(cp.items)] else withType;
    if cp.ref != "" then withItems["$ref" := ItemText(cp.ref)] else withItems
  }

  /**
   * The older `parseNamedType`.  Pointers and arrays resolve their target
   * without the selector and use the node even when it is nil; a selector
   * turns its target's error into a nil node with no error; structs are
   * not supported; maps take only "string" keys.
   */
  function LegacyParseNamedType(expr: TypeExpr, sel: Option<string>): (r: LegacyResult)
    ensures r.Returned? && r.node.Some? && r.node.value.ref != "" ==> HasPrefix(r.node.value.ref, RefPrefix)
    ensures r.Returned? && r.node.None? ==> expr.SelectorExpr?
    ensures expr.Ident? ==> r.Returned? && r.node.Some?
    ensures expr.StructType? ==> r.Errored?
  {
    match expr
    case Ident(name) =>
      var p := LegacyIdentProperty(name);
      if p.err.Some? then
        Returned(Some(RefTo(if sel.Some? then sel.value else p.typ)))
      else
        Returned(Some(EmptySchema.(typ := p.typ, format := p.format)))
    case Star(x) =>
      var t := LegacyParseNamedType(x, None);
      if t.Returned? && t.node.Some? then Returned(Some(t.node.value.(nullable := true))) else Panicked
    case ArrayType(elt) =>
      var cp := LegacyParseNamedType(elt, None);
      if cp.Returned? && cp.node.Some? then
        var c := cp.node.value;
        Returned(Some(
          if c.format == "binary" then EmptySchema.(typ := "string", format := "binary")
          else EmptySchema.(typ := "array", items := LegacyElementItems(c))))
      else Panicked
    case StructType(_) =>
      Errored(MapNotSupported)
    case SelectorExpr(x, s) =>
      var t := LegacyParseNamedType(x, Some(s));
      if t.Errored? then Returned(None) else t
    case MapType(key, value) =>
      var k := LegacyParseNamedType(key, None);
      var v := LegacyParseNamedType(value, None);
      if k.Panicked? || v.Panicked? then Panicked
      else if k.Errored? || v.Errored? then Errored(MapNotSupported)
      else if k.node.None? then Panicked
      else if k.node.value.typ != "string" then Errored(MapNotSupported)
      else Returned(Some(EmptySchema.(typ := "object", additionalProperties := v.node)))
    case InterfaceType =>
      Returned(Some(EmptySchema.(ref := AnyValueRef)))
    case Unsupported =>
      Errored(KindNotSupported)
  }

  /**
   * The type expressions on which both resolvers agree: table identifiers,
   * and pointers, arrays and string-keyed maps built from them.
   */
  predicate CommonFragment(expr: TypeExpr) {
    match expr
    case Ident(name) => InTable(name)
    case Star(x) => CommonFragment(x)
    case ArrayType(elt) => CommonFragment(elt)
    case MapType(key, value) => (key == Ident("string") || key == Ident("bson")) && CommonFragment(value)
    case _ => false
  }

  /**
   * On the common fragment the legacy resolver returns exactly the node
   * of the current one (resolved at the top, without a selector): a value
   * node without references or properties.
   */
  lemma {:induction false} LegacyAgreesOnCommonFragment(expr: TypeExpr, ext: ExternalTypes, tags: TagSyntax)
    requires CommonFragment(expr)
    ensures ParseNamedType(expr, None, ext, tags).Success?
    ensures LegacyParseNamedType(expr, None) == Returned(Some(ParseNamedType(expr, None, ext, tags).value))
    ensures ParseNamedType(expr, None, ext, tags).value.ref == ""
    ensures |ParseNamedType(expr, None, ext, tags).value.properties| == 0
  {
    match expr
    case Ident(name) =>
      TableIgnoresContext(name, None, None, ext, map[]);
    case Star(x) =>
      LegacyAgreesOnCommonFragment(x, ext, tags);
    case ArrayType(elt) =>
      LegacyAgreesOnCommonFragment(elt, ext, tags);
    case MapType(key, value) =>
      TableEntries(None, ext);
      TableEntries(None, map[]);
      LegacyAgreesOnCommonFragment(value, ext, tags);
  }

  /** The legacy resolver names an unknown identifier after itself; the current one leaves the name empty. */
  lemma UnknownIdentDiffers(name: string, ext: ExternalTypes, tags: TagSyntax)
    requires !InTable(name)
    ensures LegacyParseNamedType(Ident(name), None) == Returned(Some(RefTo(name)))
    ensures ParseNamedType(Ident(name), None, ext, tags) == Success(RefTo(""))
  {
  }

  /** The legacy resolver marks a pointer to a reference nullable; the current one does not. */
  lemma PointerToRefDiffers(name: string, ext: ExternalTypes, tags: TagSyntax)
    requires !InTable(name)
    ensures LegacyParseNamedType(Star(Ident(name)), None) == Returned(Some(RefTo(name).(nullable := true)))
    ensures ParseNamedType(Star(Ident(name)), None, ext, tags) == Success(RefTo(""))
  {
  }

  /** Integer-keyed maps are an error for the legacy resolver and an object for the current one. */
  lemma IntegerKeyDiffers(ext: ExternalTypes, tags: TagSyntax)
    ensures LegacyParseNamedType(MapType(Ident("int"), Ident("string")), None).Errored?
    ensures ParseNamedType(MapType(Ident("int"), Ident("string")), None, ext, tags)
         == Success(EmptySchema.(typ := "object", additionalProperties := Some(EmptySchema.(typ := "string"))))
  {
    TableEntries(None, ext);
    TableEntries(None, map[]);
  }

  /** Every struct is an error for the legacy resolver; the current one resolves a field-less struct to an object. */
  lemma StructDiffers(ext: ExternalTypes, tags: TagSyntax)
    ensures LegacyParseNamedType(StructType([]), None) == Errored(MapNotSupported)
    ensures ParseNamedType(StructType([]), None, ext, tags) == Success(EmptySchema.(typ := "object"))
  {
  }

  /**
   * A selector swallows its target's error as a nil node, and a pointer to
   * that selector then dereferences nil.
   */
  lemma SelectorSwallowsError(x: TypeExpr, s: string)
    requires LegacyParseNamedType(x, Some(s)).Errored?
    ensures LegacyParseNamedType(SelectorExpr(x, s), None) == Returned(None)
    ensures LegacyParseNamedType(Star(SelectorExpr(x, s)), None) == Panicked
    ensures LegacyParseNamedType(ArrayType(SelectorExpr(x, s)), None) == Panicked
  {
  }
}
