/**
 * The schema of a struct declaration: its exported named fields become
 * properties of an object, its embedded and unexported fields become the
 * members of an `allOf` composition that ends with that object.  Also the
 * schema of a map declaration, which only supports free-form string-keyed
 * objects.
 */
module Structs {
  import opened Wrappers
  import opened GoAst
  import opened Schemas
  import opened IdentProperty
  import opened JsonTag
  import opened NamedType

  /**
   * `parseExample(doc, type)`: None when the documentation holds no
   * `@openapi:example` line, otherwise the example converted for the type,
   * or the conversion's error.
   */
  type ExampleParser = (string, TypeExpr) -> Result<Option<Example>, string>

  const FieldTypeError: string := "can't parse the type of field in struct"
  const ComposedTypeError: string := "can't parse the type of composed field in struct"
  const MapKeyError: string := "could not parse ident property from map"

  /** A field that becomes a property: it has a name, and the name is exported. */
  predicate OwnField(f: Field) {
    |f.names| > 0 && IsExported(f.names[0])
  }

  /** A field the tag does not exclude, and whose name therefore reaches the object. */
  predicate Listed(f: Field, tags: TagSyntax) {
    OwnField(f) && !JsonTagOf(f, tags).info.ignore
  }

  /**
   * What the field loop has built so far: the own object (properties and
   * required list), the composition when one has been started, and the
   * errors met.
   */
  datatype StructState = StructState(own: Schema, allOf: Option<seq<Schema>>, errs: seq<string>)

  const ObjectSchema: Schema := EmptySchema.(typ := "object")

  const InitialState: StructState := StructState(ObjectSchema, None, [])

  /** A field's resolved node with the field's example, and the tag's enum list when it is not empty. */
  function Decorate(p: Schema, example: Option<Example>, enum: seq<string>): (r: Schema)
    ensures r.enum == (if |enum| > 0 then enum else p.enum)
    ensures r.example == (if example.Some? then example else p.example)
    ensures r.(enum := p.enum, example := p.example) == p
  {
    var withExample := if example.Some? then p.(example := example) else p;
    if |enum| > 0 then withExample.(enum := enum) else withExample
  }

  /** The example a field's documentation yields; a conversion error leaves none. */
  function FieldExample(f: Field, examples: ExampleParser): Option<Example> {
    var ex := examples(f.doc, f.typ);
    if ex.Success? then ex.value else None
  }

  /** The error list after a field's example is read. */
  function ExampleErrors(errs: seq<string>, f: Field, examples: ExampleParser): seq<string> {
    var ex := examples(f.doc, f.typ);
    if ex.Failure? then errs + [ex.error] else errs
  }

  /**
   * An exported named field: skipped when the tag excludes it; otherwise
   * its name joins the required list when the tag says so, and its node
   * (decorated with the example and the tag's enum list) is stored under
   * its name when its type resolves.
   */
  function OwnStep(st: StructState, f: Field, ext: ExternalTypes, tags: TagSyntax, examples: ExampleParser): StructState {
    var j := JsonTagOf(f, tags).info;
    if j.ignore then st
    else
      var own := if j.required then st.own.(required := st.own.required + [j.name]) else st.own;
      match ParseNamedType(f.typ, None, ext, tags)
      case Failure(_) => StructState(own, st.allOf, st.errs + [FieldTypeError])
      case Success(p) =>
        StructState(own.(properties := own.properties[j.name := Decorate(p, FieldExample(f, examples), j.enum)]), st.allOf, st.errs)
  }

  /**
   * An embedded or unexported field: the composition is started, and the
   * field's node (with its example) joins it when its type resolves.
   */
  function ForeignStep(st: StructState, f: Field, ext: ExternalTypes, tags: TagSyntax, examples: ExampleParser): StructState {
    var allOf := if st.allOf.Some? then st.allOf.value else [];
    match ParseNamedType(f.typ, None, ext, tags)
    case Failure(_) => StructState(st.own, Some(allOf), st.errs + [ComposedTypeError])
    case Success(p) => StructState(st.own, Some(allOf + [Decorate(p, FieldExample(f, examples), [])]), st.errs)
  }

  /** One iteration of the field loop of `parseStructs`: the example is read first, whatever the field. */
  function FieldStep(st: StructState, f: Field, ext: ExternalTypes, tags: TagSyntax, examples: ExampleParser): StructState {
    var st1 := st.(errs := ExampleErrors(st.errs, f, examples));
    if OwnField(f) then OwnStep(st1, f, ext, tags, examples) else ForeignStep(st1, f, ext, tags, examples)
  }

  /** The state after the field loop has run over `fields`. */
  function StructFold(fields: seq<Field>, ext: ExternalTypes, tags: TagSyntax, examples: ExampleParser): StructState {
    if |fields| == 0 then InitialState
    else FieldStep(StructFold(fields[..|fields| - 1], ext, tags, examples), fields[|fields| - 1], ext, tags, examples)
  }

  /** The entity a finished loop yields: the object alone, or the composition with the object appended last. */
  function StructEntity(st: StructState): (e: Entity)
    ensures e.Plain? <==> st.allOf.None?
    ensures e.Plain? ==> e.schema == st.own
    ensures e.Composed? ==> e.allOf == st.allOf.value + [st.own] && e.meta == NoMetadata
  {
    if st.allOf.None? then Plain(st.own) else Composed(NoMetadata, st.allOf.value + [st.own])
  }

  /**
   * `parseStructs`: the entity of a struct declaration and the errors met
   * while reading its fields' examples and types.
   */
  method ParseStructs(fields: seq<Field>, ext: ExternalTypes, tags: TagSyntax, examples: ExampleParser)
    returns (entity: Entity, errs: seq<string>)
    ensures entity == StructEntity(StructFold(fields, ext, tags, examples))
    ensures errs == StructFold(fields, ext, tags, examples).errs
  {
    var cs: Option<seq<Schema>> := None;
    var e := ObjectSchema;
    errs := [];
    for i := 0 to |fields|
      invariant StructState(e, cs, errs) == StructFold(fields[..i], ext, tags, examples)
    {
      var fld := fields[i];
      assert fields[..i + 1][..i] == fields[..i];
      var ex := examples(fld.doc, fld.typ);
      var example: Option<Example> := None;
      if ex.Failure? {
        errs := errs + [ex.error];
      } else {
        example := ex.value;
      }
      if OwnField(fld) {
        var j := JsonTagOf(fld, tags).info;
        if j.ignore {
          continue;
        }
        if j.required {
          e := e.(required := e.required + [j.name]);
        }
        var p := ParseNamedType(fld.typ, None, ext, tags);
        if p.Failure? {
          errs := errs + [FieldTypeError];
          continue;
        }
        var node := p.value;
        if example.Some? {
          node := node.(example := example);
        }
        if |j.enum| > 0 {
          node := node.(enum := j.enum);
        }
        e := e.(properties := e.properties[j.name := node]);
      } else {
        if cs.None? {
          cs := Some([]);
        }
        var p := ParseNamedType(fld.typ, None, ext, tags);
        if p.Failure? {
          errs := errs + [ComposedTypeError];
          continue;
        }
        var node := p.value;
        if example.Some? {
          node := node.(example := example);
        }
        cs := Some(cs.value + [node]);
      }
    }
    assert fields[..|fields|] == fields;
    if cs.None? {
      entity := Plain(e);
    } else {
      entity := Composed(NoMetadata, cs.value + [e]);
    }
  }

  /** The name a field adds to the required list: that of a listed field whose tag says `required`. */
  function RequiredName(f: Field, tags: TagSyntax): seq<string> {
    var j := JsonTagOf(f, tags).info;
    if OwnField(f) && !j.ignore && j.required then [j.name] else []
  }

  /** The concatenation of `f(x)` over the elements `x` of `xs`, left to right. */
  function ConcatMap<T, U>(xs: seq<T>, f: T -> seq<U>): seq<U> {
    if |xs| == 0 then [] else f(xs[0]) + ConcatMap(xs[1..], f)
  }

  /** Read from the right, the concatenation ends with the last element's part. */
  lemma {:induction false} ConcatMapLast<T, U>(xs: seq<T>, f: T -> seq<U>)
    requires |xs| > 0
    ensures ConcatMap(xs, f) == ConcatMap(xs[..|xs| - 1], f) + f(xs[|xs| - 1])
    decreases |xs|
  {
    if |xs| > 1 {
      var tail := xs[1..];
      ConcatMapLast(tail, f);
      assert tail[..|tail| - 1] == xs[..|xs| - 1][1..];
      assert tail[|tail| - 1] == xs[|xs| - 1];
    } else {
      assert xs[1..] == [];
      assert xs[..0] == [];
    }
  }

  /**
   * The required list, read left to right: the name of every listed field
   * whose tag says `required`, whether or not its type resolves.
   */
  function RequiredNames(fields: seq<Field>, tags: TagSyntax): seq<string> {
    ConcatMap(fields, (f: Field) => RequiredName(f, tags))
  }

  /** One step appends the field's required name, if any, to the required list. */
  lemma StepRequired(st: StructState, f: Field, ext: ExternalTypes, tags: TagSyntax, examples: ExampleParser)
    ensures FieldStep(st, f, ext, tags, examples).own.required == st.own.required + RequiredName(f, tags)
  {
  }

  /** One step starts the composition exactly at an embedded or unexported field. */
  lemma StepComposed(st: StructState, f: Field, ext: ExternalTypes, tags: TagSyntax, examples: ExampleParser)
    ensures FieldStep(st, f, ext, tags, examples).allOf.Some? <==> st.allOf.Some? || !OwnField(f)
  {
  }

  /** One step adds the field's name to the properties exactly when the field is listed and resolves. */
  lemma StepKeys(st: StructState, f: Field, ext: ExternalTypes, tags: TagSyntax, examples: ExampleParser)
    ensures FieldStep(st, f, ext, tags, examples).own.properties.Keys
      == st.own.properties.Keys
         + (if Listed(f, tags) && ParseNamedType(f.typ, None, ext, tags).Success? then {JsonTagOf(f, tags).info.name} else {})
  {
  }

  /** The object's required list is exactly the required names in field order. */
  lemma {:induction false} RequiredInFieldOrder(fields: seq<Field>, ext: ExternalTypes, tags: TagSyntax, examples: ExampleParser)
    ensures StructFold(fields, ext, tags, examples).own.required == RequiredNames(fields, tags)
    decreases |fields|
  {
    if |fields| > 0 {
      RequiredInFieldOrder(fields[..|fields| - 1], ext, tags, examples);
      StepRequired(StructFold(fields[..|fields| - 1], ext, tags, examples), fields[|fields| - 1], ext, tags, examples);
      ConcatMapLast(fields, (f: Field) => RequiredName(f, tags));
    }
  }

  /** Some field of the list is embedded or unexported. */
  predicate SomeForeign(fields: seq<Field>) {
    exists k :: 0 <= k < |fields| && !OwnField(fields[k])
  }

  /** A list with a foreign field is one whose front has one, or whose last field is one. */
  lemma SomeForeignSnoc(fields: seq<Field>)
    requires |fields| > 0
    ensures SomeForeign(fields) <==> SomeForeign(fields[..|fields| - 1]) || !OwnField(fields[|fields| - 1])
  {
    var init := fields[..|fields| - 1];
    if SomeForeign(init) {
      var k :| 0 <= k < |init| && !OwnField(init[k]);
      assert init[k] == fields[k];
    }
    if SomeForeign(fields) {
      var k :| 0 <= k < |fields| && !OwnField(fields[k]);
      if k < |init| {
        assert init[k] == fields[k];
      }
    }
  }

  /** A composition is built exactly when some field is embedded or unexported, resolved or not. */
  lemma {:induction false} ComposedIffForeignField(fields: seq<Field>, ext: ExternalTypes, tags: TagSyntax, examples: ExampleParser)
    ensures StructFold(fields, ext, tags, examples).allOf.Some? <==> SomeForeign(fields)
    decreases |fields|
  {
    if |fields| > 0 {
      var init := fields[..|fields| - 1];
      var last := fields[|fields| - 1];
      var st := StructFold(init, ext, tags, examples);
      ComposedIffForeignField(init, ext, tags, examples);
      StepComposed(st, last, ext, tags, examples);
      SomeForeignSnoc(fields);
    }
  }

  /** The member an embedded or unexported field adds to the composition: its node, with its example, when it resolves. */
  function ForeignMember(f: Field, ext: ExternalTypes, tags: TagSyntax, examples: ExampleParser): seq<Schema> {
    if OwnField(f) then []
    else
      match ParseNamedType(f.typ, None, ext, tags)
      case Failure(_) => []
      case Success(p) => [Decorate(p, FieldExample(f, examples), [])]
  }

  /** The members of the composition so far, none before it is started. */
  function Members(st: StructState): seq<Schema> {
    if st.allOf.Some? then st.allOf.value else []
  }

  /** One step appends the field's member, if any, to the composition. */
  lemma StepMembers(st: StructState, f: Field, ext: ExternalTypes, tags: TagSyntax, examples: ExampleParser)
    ensures Members(FieldStep(st, f, ext, tags, examples)) == Members(st) + ForeignMember(f, ext, tags, examples)
  {
  }

  /**
   * The composition holds the nodes of the embedded and unexported fields
   * that resolve, in field order (the own object follows them, see
   * StructEntity).
   */
  lemma {:induction false} MembersInFieldOrder(fields: seq<Field>, ext: ExternalTypes, tags: TagSyntax, examples: ExampleParser)
    ensures Members(StructFold(fields, ext, tags, examples))
         == ConcatMap(fields, (f: Field) => ForeignMember(f, ext, tags, examples))
    decreases |fields|
  {
    if |fields| > 0 {
      MembersInFieldOrder(fields[..|fields| - 1], ext, tags, examples);
      StepMembers(StructFold(fields[..|fields| - 1], ext, tags, examples), fields[|fields| - 1], ext, tags, examples);
      ConcatMapLast(fields, (f: Field) => ForeignMember(f, ext, tags, examples));
    }
  }

  /** The name of a field that is listed and resolves. */
  predicate StoresUnder(f: Field, name: string, ext: ExternalTypes, tags: TagSyntax) {
    Listed(f, tags) && JsonTagOf(f, tags).info.name == name && ParseNamedType(f.typ, None, ext, tags).Success?
  }

  /** Some field of the list is listed under `name` and resolves. */
  predicate SomeStoresUnder(fields: seq<Field>, name: string, ext: ExternalTypes, tags: TagSyntax) {
    exists k :: 0 <= k < |fields| && StoresUnder(fields[k], name, ext, tags)
  }

  /** Such a field is in the front of the list, or is its last field. */
  lemma SomeStoresUnderSnoc(fields: seq<Field>, name: string, ext: ExternalTypes, tags: TagSyntax)
    requires |fields| > 0
    ensures SomeStoresUnder(fields, name, ext, tags)
      <==> SomeStoresUnder(fields[..|fields| - 1], name, ext, tags) || StoresUnder(fields[|fields| - 1], name, ext, tags)
  {
    var init := fields[..|fields| - 1];
    if SomeStoresUnder(init, name, ext, tags) {
      var k :| 0 <= k < |init| && StoresUnder(init[k], name, ext, tags);
      assert init[k] == fields[k];
    }
    if SomeStoresUnder(fields, name, ext, tags) {
      var k :| 0 <= k < |fields| && StoresUnder(fields[k], name, ext, tags);
      if k < |init| {
        assert init[k] == fields[k];
      }
    }
  }

  /** A property is stored under a name exactly when a listed field with that name resolves. */
  lemma {:induction false} PropertyKeys(fields: seq<Field>, ext: ExternalTypes, tags: TagSyntax, examples: ExampleParser, name: string)
    ensures name in StructFold(fields, ext, tags, examples).own.properties <==> SomeStoresUnder(fields, name, ext, tags)
    decreases |fields|
  {
    if |fields| > 0 {
      var init := fields[..|fields| - 1];
      var last := fields[|fields| - 1];
      PropertyKeys(init, ext, tags, examples, name);
      StepKeys(StructFold(init, ext, tags, examples), last, ext, tags, examples);
      SomeStoresUnderSnoc(fields, name, ext, tags);
    }
  }

  /**
   * The last field of a struct, when it is listed and resolves, leaves its
   * own node under its name: the example of its documentation attached,
   * and the tag's enum list overriding the node's when it is not empty.
   */
  lemma LastFieldProperty(fields: seq<Field>, ext: ExternalTypes, tags: TagSyntax, examples: ExampleParser)
    requires |fields| > 0
    requires Listed(fields[|fields| - 1], tags)
    requires ParseNamedType(fields[|fields| - 1].typ, None, ext, tags).Success?
    ensures var f := fields[|fields| - 1];
      var j := JsonTagOf(f, tags).info;
      var p := ParseNamedType(f.typ, None, ext, tags).value;
      var q := StructFold(fields, ext, tags, examples).own.properties[j.name];
      && q.enum == (if |j.enum| > 0 then j.enum else p.enum)
      && q.example == (if FieldExample(f, examples).Some? then FieldExample(f, examples) else p.example)
      && q.(enum := p.enum, example := p.example) == p
  {
  }

  /**
   * Any field that is listed and resolves, and that no later field stores
   * under the same name, leaves its node under its name: decorated with
   * the example of its documentation and the tag's enum list.
   */
  lemma {:induction false} FieldProperty(fields: seq<Field>, ext: ExternalTypes, tags: TagSyntax, examples: ExampleParser, i: nat)
    requires i < |fields| && Listed(fields[i], tags)
    requires ParseNamedType(fields[i].typ, None, ext, tags).Success?
    requires forall j :: i < j < |fields| ==> !StoresUnder(fields[j], JsonTagOf(fields[i], tags).info.name, ext, tags)
    ensures var j := JsonTagOf(fields[i], tags).info;
      var q := StructFold(fields, ext, tags, examples).own.properties;
      && j.name in q
      && q[j.name] == Decorate(ParseNamedType(fields[i].typ, None, ext, tags).value, FieldExample(fields[i], examples), j.enum)
    decreases |fields|
  {
    var init := fields[..|fields| - 1];
    if i < |fields| - 1 {
      assert init[i] == fields[i];
      forall j | i < j < |init|
        ensures !StoresUnder(init[j], JsonTagOf(init[i], tags).info.name, ext, tags)
      {
        assert init[j] == fields[j];
      }
      FieldProperty(init, ext, tags, examples, i);
      StepKeys(StructFold(init, ext, tags, examples), fields[|fields| - 1], ext, tags, examples);
    }
  }

  /** A struct without embedded or unexported fields is a plain object. */
  lemma OwnFieldsOnlyPlain(fields: seq<Field>, ext: ExternalTypes, tags: TagSyntax, examples: ExampleParser)
    requires forall k :: 0 <= k < |fields| ==> OwnField(fields[k])
    ensures StructEntity(StructFold(fields, ext, tags, examples)).Plain?
    ensures StructEntity(StructFold(fields, ext, tags, examples)).schema.typ == "object"
  {
    ComposedIffForeignField(fields, ext, tags, examples);
    ObjectStaysObject(fields, ext, tags, examples);
  }

  /** The own object keeps the type "object" through the loop. */
  lemma {:induction false} ObjectStaysObject(fields: seq<Field>, ext: ExternalTypes, tags: TagSyntax, examples: ExampleParser)
    ensures StructFold(fields, ext, tags, examples).own.typ == "object"
    decreases |fields|
  {
    if |fields| > 0 {
      ObjectStaysObject(fields[..|fields| - 1], ext, tags, examples);
    }
  }

  /** What `parseMaps` yields: the node when the map is supported, and the errors. */
  datatype MapResult = MapResult(node: Option<Schema>, errs: seq<string>)

  /** The node of a free-form object: any additional properties, of any schema. */
  const FreeFormObject: Schema := EmptySchema.(typ := "object", additionalProperties := Some(EmptySchema))

  /**
   * `parseMaps`: only `map[K]interface{}` with a key the primitive table
   * types as "string" (`string`, `bson`, and also `time`, `byte` and `json`),
   * or a key that is not a plain identifier and is not checked, becomes the
   * free-form object; a key identifier outside the primitive table is also
   * reported.
   */
  function ParseMaps(key: TypeExpr, value: TypeExpr, ext: ExternalTypes): (r: MapResult)
    ensures r.node.Some? <==> (!key.Ident? || key.name in {"string", "bson", "time", "byte", "json"}) && value.InterfaceType?
    ensures r.node.Some? ==> r.node.value == FreeFormObject
    ensures r.errs != [] <==> key.Ident? && !InTable(key.name)
  {
    if key.Ident? && (StringTypedNames(key.name, ext); ParseIdentProperty(key.name, None, ext).typ != "string") then
      MapResult(None, if ParseIdentProperty(key.name, None, ext).err.Some? then [MapKeyError] else [])
    else
      var errs := if key.Ident? && ParseIdentProperty(key.name, None, ext).err.Some? then [MapKeyError] else [];
      MapResult(if value.InterfaceType? then Some(FreeFormObject) else None, errs)
  }
}
