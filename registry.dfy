/**
 * The schema registry: what `parseSchemas` registers for the type
 * declarations of a file, how `replaceSchemaNameToCustom` rewrites the
 * references of a node once every file is read, and under which names
 * `composeSpecSchemas` publishes the registered schemas.
 */
module Registry {
  import opened Wrappers
  import opened GoStrings
  import opened GoAst
  import opened Schemas
  import opened IdentProperty
  import opened NamedType
  import opened Structs
  import opened ModelHelpers
  import opened JsonTag

  const ArrayElementError: string := "Can't parse the type of field in struct"
  const CustomTypeError: string := "can't parse custom type"

  /** What a schema declaration's type yields: an entity to register (with the errors met), or an error and nothing. */
  datatype Outcome = Register(entity: Entity, errs: seq<string>) | Skip(err: string)

  /** The node of an array declaration: "array", with its element's reference, or else its element's type (even an empty one). */
  function ArrayDeclSchema(p: Schema): (r: Schema)
    ensures r.typ == "array" && r.meta == NoMetadata && r.ref == ""
    ensures p.ref != "" ==> r.items == map["$ref" := ItemText(p.ref)]
    ensures p.ref == "" ==> r.items == map["type" := ItemText(p.typ)]
  {
    EmptySchema.(typ := "array", items := if p.ref != "" then map["$ref" := ItemText(p.ref)] else map["type" := ItemText(p.typ)])
  }

  /**
   * The entity of a declared type, by kind: a map through `parseMaps` (a
   * nil node is still an entry), a struct through `parseStructs` renamed to
   * the entity name, an array as an "array" node, anything else through the
   * resolver renamed to the entity name.  Arrays and maps keep an empty
   * custom name.
   */
  function DeclEntity(typ: TypeExpr, entityName: string, ext: ExternalTypes, tags: TagSyntax, examples: ExampleParser): (r: Outcome)
    ensures r.Register? ==> !r.entity.Described?
    ensures r.Register? && r.entity.NilSchema? ==> typ.MapType?
  {
    match typ
    case MapType(k, v) =>
      var m := ParseMaps(k, v, ext);
      Register(if m.node.Some? then Plain(m.node.value) else NilSchema, m.errs)
    case StructType(fields) =>
      var st := StructFold(fields, ext, tags, examples);
      Register(SetCustomName(StructEntity(st), entityName), st.errs)
    case ArrayType(elt) =>
      (match ParseNamedType(elt, None, ext, tags)
       case Failure(_) => Skip(ArrayElementError)
       case Success(p) => Register(Plain(ArrayDeclSchema(p)), []))
    case _ =>
      (match ParseNamedType(typ, None, ext, tags)
       case Failure(_) => Skip(CustomTypeError)
       case Success(p) => Register(SetCustomName(Plain(p), entityName), []))
  }

  /**
   * By kind: a struct always registers an entity carrying the entity name;
   * a map always registers, a nil node when `parseMaps` yields none, with
   * an empty custom name; an array registers an unnamed "array" node when
   * its element resolves; any other type registers its node, carrying the
   * entity name, when it resolves.
   */
  lemma DeclEntityByKind(typ: TypeExpr, entityName: string, ext: ExternalTypes, tags: TagSyntax, examples: ExampleParser)
    ensures var r := DeclEntity(typ, entityName, ext, tags, examples);
      typ.StructType? ==> r.Register? && !r.entity.NilSchema? && HasMetadata(r.entity) && CustomName(r.entity) == entityName
    ensures var r := DeclEntity(typ, entityName, ext, tags, examples);
      typ.MapType? ==>
        && r.Register? && CustomName(r.entity) == ""
        && (r.entity.NilSchema? <==> ParseMaps(typ.key, typ.value, ext).node.None?)
    ensures var r := DeclEntity(typ, entityName, ext, tags, examples);
      typ.ArrayType? ==> (r.Register? <==> ParseNamedType(typ.elt, None, ext, tags).Success?)
    ensures var r := DeclEntity(typ, entityName, ext, tags, examples);
      typ.ArrayType? && r.Register? ==> r.entity.Plain? && r.entity.schema.typ == "array" && CustomName(r.entity) == "" && r.errs == []
    ensures var r := DeclEntity(typ, entityName, ext, tags, examples);
      !typ.StructType? && !typ.MapType? && !typ.ArrayType? ==>
        && (r.Register? <==> ParseNamedType(typ, None, ext, tags).Success?)
        && (r.Register? ==> r.entity.Plain? && CustomName(r.entity) == entityName && r.errs == [])
  {
  }

  /** The registry being filled, the errors met, and whether a nil node was dereferenced (a panic, which ends the run). */
  datatype RegState = RegState(registry: map<string, Entity>, errs: seq<string>, panicked: bool)

  /** The example of a declaration's documentation is attached to a schema node, and not to a composition. */
  function AttachExample(e: Entity, example: Option<Example>): (r: Entity)
    ensures HasMetadata(r) == HasMetadata(e) && CustomName(r) == CustomName(e)
    ensures r.Plain? ==> e.Plain? && r.schema.example == (if example.Some? then example else e.schema.example)
    ensures !e.Plain? || example.None? ==> r == e
  {
    if e.Plain? && example.Some? then Plain(e.schema.(example := example)) else e
  }

  /**
   * One type specification of a declaration whose documentation is `doc`:
   * the example is read first (its error is reported even without the
   * directive); without `@openapi:schema` nothing else happens; otherwise
   * the entity is registered under the declared name.  An example given
   * for a map declaration that yields no node dereferences nil.
   */
  function SpecStep(st: RegState, doc: string, spec: Spec, ext: ExternalTypes, tags: TagSyntax, examples: ExampleParser): (r: RegState)
  {
    if st.panicked || spec.OtherSpec? then st
    else
      var ex := examples(doc, spec.typ);
      var errs := if ex.Failure? then st.errs + [ex.error] else st.errs;
      var example := if ex.Success? then ex.value else None;
      match SchemaDirective(doc)
      case None => st.(errs := errs)
      case Some(w) =>
        var entityName := if w != "" then w else spec.name;
        match DeclEntity(spec.typ, entityName, ext, tags, examples)
        case Skip(e) => st.(errs := errs + [e])
        case Register(entity, es) =>
          if entity.NilSchema? && example.Some? then RegState(st.registry, errs + es, true)
          else RegState(st.registry[spec.name := AttachExample(entity, example)], errs + es, false)
  }

  /**
   * What one specification can do: a panicked run stays as it is; errors
   * are only appended; without the directive the registry is untouched;
   * only the specification's own name can be added or replaced; only a map
   * declaration panics.
   */
  lemma SpecStepFrame(st: RegState, doc: string, spec: Spec, ext: ExternalTypes, tags: TagSyntax, examples: ExampleParser)
    ensures var r := SpecStep(st, doc, spec, ext, tags, examples);
      st.panicked ==> r == st
    ensures var r := SpecStep(st, doc, spec, ext, tags, examples);
      !st.panicked && spec.TypeSpec? ==> |st.errs| <= |r.errs| && r.errs[..|st.errs|] == st.errs
    ensures var r := SpecStep(st, doc, spec, ext, tags, examples);
      SchemaDirective(doc).None? ==> r.registry == st.registry && r.panicked == st.panicked
    ensures var r := SpecStep(st, doc, spec, ext, tags, examples);
      r.registry.Keys <= st.registry.Keys + (if spec.TypeSpec? then {spec.name} else {})
    ensures var r := SpecStep(st, doc, spec, ext, tags, examples);
      forall n :: n in st.registry && (spec.OtherSpec? || n != spec.name) ==> n in r.registry && r.registry[n] == st.registry[n]
    ensures var r := SpecStep(st, doc, spec, ext, tags, examples);
      r.panicked && !st.panicked ==> spec.TypeSpec? && spec.typ.MapType?
  {
  }

  /** The specifications of one declaration, in order. */
  function SpecsFold(st: RegState, doc: string, specs: seq<Spec>, ext: ExternalTypes, tags: TagSyntax, examples: ExampleParser): RegState {
    if |specs| == 0 then st
    else SpecStep(SpecsFold(st, doc, specs[..|specs| - 1], ext, tags, examples), doc, specs[|specs| - 1], ext, tags, examples)
  }

  /** The fold over the first `j + 1` specifications is one more step after the first `j`. */
  lemma SpecsFoldPrefix(st: RegState, doc: string, specs: seq<Spec>, j: nat, ext: ExternalTypes, tags: TagSyntax, examples: ExampleParser)
    requires j < |specs|
    ensures SpecsFold(st, doc, specs[..j + 1], ext, tags, examples)
         == SpecStep(SpecsFold(st, doc, specs[..j], ext, tags, examples), doc, specs[j], ext, tags, examples)
  {
    assert specs[..j + 1][..j] == specs[..j];
  }

  /** One top-level declaration: only general declarations hold type specifications. */
  function DeclStep(st: RegState, decl: Decl, ext: ExternalTypes, tags: TagSyntax, examples: ExampleParser): RegState {
    match decl
    case FuncDecl => st
    case GenDecl(doc, specs) => SpecsFold(st, doc, specs, ext, tags, examples)
  }

  /** `parseSchemas` over the declarations of a file, in order. */
  function DeclsFold(st: RegState, decls: seq<Decl>, ext: ExternalTypes, tags: TagSyntax, examples: ExampleParser): RegState {
    if |decls| == 0 then st
    else DeclStep(DeclsFold(st, decls[..|decls| - 1], ext, tags, examples), decls[|decls| - 1], ext, tags, examples)
  }

  /** A type declared under the directive whose type resolves is registered under its declared name, with its example. */
  lemma DeclaredTypeRegistered(st: RegState, doc: string, name: string, typ: TypeExpr, ext: ExternalTypes, tags: TagSyntax, examples: ExampleParser)
    requires !st.panicked && SchemaDirective(doc).Some?
    requires DeclEntity(typ, if SchemaDirective(doc).value != "" then SchemaDirective(doc).value else name, ext, tags, examples).Register?
    requires !DeclEntity(typ, if SchemaDirective(doc).value != "" then SchemaDirective(doc).value else name, ext, tags, examples).entity.NilSchema?
    ensures var r := SpecStep(st, doc, TypeSpec(name, typ), ext, tags, examples);
      !r.panicked && name in r.registry
      && CustomName(r.registry[name]) == CustomName(DeclEntity(typ, if SchemaDirective(doc).value != "" then SchemaDirective(doc).value else name, ext, tags, examples).entity)
      && r.registry[name] == AttachExample(DeclEntity(typ, if SchemaDirective(doc).value != "" then SchemaDirective(doc).value else name, ext, tags, examples).entity,
                                           if examples(doc, typ).Success? then examples(doc, typ).value else None)
  {
  }

  /** A struct or a plain type whose documentation first carries `@openapi:schema:Name` is registered under its real name with the custom name `Name`. */
  lemma CustomNameFromDirective(st: RegState, pre: string, w: string, rest: string, name: string, typ: TypeExpr, ext: ExternalTypes, tags: TagSyntax, examples: ExampleParser)
    requires !st.panicked
    requires forall k :: 0 <= k < |pre| ==> !OccursAt(pre + SchemaMarker + ":" + w + rest, SchemaMarker, k)
    requires |w| > 0 && forall k :: 0 <= k < |w| ==> IsWordChar(w[k])
    requires rest == "" || !IsWordChar(rest[0])
    requires !typ.MapType? && !typ.ArrayType?
    requires typ.StructType? || ParseNamedType(typ, None, ext, tags).Success?
    ensures var r := SpecStep(st, pre + SchemaMarker + ":" + w + rest, TypeSpec(name, typ), ext, tags, examples);
      name in r.registry && CustomName(r.registry[name]) == w
  {
    SchemaDirectiveNamed(pre, ":", w, rest);
  }

  /** A panic ends the scan of the specifications: later ones change nothing. */
  lemma {:induction false} SpecsPanicFinal(st: RegState, doc: string, specs: seq<Spec>, more: seq<Spec>, ext: ExternalTypes, tags: TagSyntax, examples: ExampleParser)
    requires SpecsFold(st, doc, specs, ext, tags, examples).panicked
    ensures SpecsFold(st, doc, specs + more, ext, tags, examples) == SpecsFold(st, doc, specs, ext, tags, examples)
    decreases |more|
  {
    if |more| > 0 {
      var all := specs + more;
      var prev := specs + more[..|more| - 1];
      var done := SpecsFold(st, doc, specs, ext, tags, examples);
      assert all[..|all| - 1] == prev;
      assert SpecsFold(st, doc, prev, ext, tags, examples) == done by {
        SpecsPanicFinal(st, doc, specs, more[..|more| - 1], ext, tags, examples);
      }
      assert SpecStep(done, doc, all[|all| - 1], ext, tags, examples) == done by {
        SpecStepFrame(done, doc, all[|all| - 1], ext, tags, examples);
      }
    } else {
      assert specs + more == specs;
    }
  }

  /** A fold over specifications that starts after a panic does nothing. */
  lemma {:induction false} SpecsFromPanic(st: RegState, doc: string, specs: seq<Spec>, ext: ExternalTypes, tags: TagSyntax, examples: ExampleParser)
    requires st.panicked
    ensures SpecsFold(st, doc, specs, ext, tags, examples) == st
    decreases |specs|
  {
    if |specs| > 0 {
      SpecsFromPanic(st, doc, specs[..|specs| - 1], ext, tags, examples);
      SpecStepFrame(st, doc, specs[|specs| - 1], ext, tags, examples);
    }
  }

  /** A panic ends the scan of the declarations: later ones change nothing. */
  lemma {:induction false} DeclsPanicFinal(st: RegState, decls: seq<Decl>, more: seq<Decl>, ext: ExternalTypes, tags: TagSyntax, examples: ExampleParser)
    requires DeclsFold(st, decls, ext, tags, examples).panicked
    ensures DeclsFold(st, decls + more, ext, tags, examples) == DeclsFold(st, decls, ext, tags, examples)
    decreases |more|
  {
    if |more| > 0 {
      var all := decls + more;
      assert all[..|all| - 1] == decls + more[..|more| - 1];
      DeclsPanicFinal(st, decls, more[..|more| - 1], ext, tags, examples);
      var last := more[|more| - 1];
      if last.GenDecl? {
        SpecsFromPanic(DeclsFold(st, decls + more[..|more| - 1], ext, tags, examples), last.doc, last.specs, ext, tags, examples);
      }
    } else {
      assert decls + more == decls;
    }
  }

  /** Registered names stay registered through the specifications of a declaration, and errors are only appended. */
  lemma {:induction false} SpecsGrow(st: RegState, doc: string, specs: seq<Spec>, ext: ExternalTypes, tags: TagSyntax, examples: ExampleParser)
    ensures var r := SpecsFold(st, doc, specs, ext, tags, examples);
      st.registry.Keys <= r.registry.Keys && |st.errs| <= |r.errs| && r.errs[..|st.errs|] == st.errs
    decreases |specs|
  {
    if |specs| > 0 {
      SpecsGrow(st, doc, specs[..|specs| - 1], ext, tags, examples);
      var mid := SpecsFold(st, doc, specs[..|specs| - 1], ext, tags, examples);
      var r := SpecStep(mid, doc, specs[|specs| - 1], ext, tags, examples);
      SpecStepFrame(mid, doc, specs[|specs| - 1], ext, tags, examples);
      assert r.errs[..|mid.errs|] == mid.errs;
      assert r.errs[..|st.errs|] == r.errs[..|mid.errs|][..|st.errs|];
    }
  }

  /** Registered names stay registered through a file, and its errors are only appended. */
  lemma {:induction false} DeclsGrow(st: RegState, decls: seq<Decl>, ext: ExternalTypes, tags: TagSyntax, examples: ExampleParser)
    ensures var r := DeclsFold(st, decls, ext, tags, examples);
      st.registry.Keys <= r.registry.Keys && |st.errs| <= |r.errs| && r.errs[..|st.errs|] == st.errs
    decreases |decls|
  {
    if |decls| > 0 {
      DeclsGrow(st, decls[..|decls| - 1], ext, tags, examples);
      var mid := DeclsFold(st, decls[..|decls| - 1], ext, tags, examples);
      var last := decls[|decls| - 1];
      if last.GenDecl? {
        SpecsGrow(mid, last.doc, last.specs, ext, tags, examples);
        var r := DeclsFold(st, decls, ext, tags, examples);
        assert r.errs[..|st.errs|] == r.errs[..|mid.errs|][..|st.errs|];
      }
    }
  }

  /** Declarations without the directive register nothing. */
  lemma {:induction false} UndirectedDeclsRegisterNothing(st: RegState, decls: seq<Decl>, ext: ExternalTypes, tags: TagSyntax, examples: ExampleParser)
    requires forall i :: 0 <= i < |decls| && decls[i].GenDecl? ==> SchemaDirective(decls[i].doc).None?
    ensures DeclsFold(st, decls, ext, tags, examples).registry == st.registry
    ensures DeclsFold(st, decls, ext, tags, examples).panicked == st.panicked
    decreases |decls|
  {
    if |decls| > 0 {
      var n := |decls| - 1;
      UndirectedDeclsRegisterNothing(st, decls[..n], ext, tags, examples);
      if decls[n].GenDecl? {
        UndirectedSpecs(DeclsFold(st, decls[..n], ext, tags, examples), decls[n].doc, decls[n].specs, ext, tags, examples);
      }
    }
  }

  lemma {:induction false} UndirectedSpecs(st: RegState, doc: string, specs: seq<Spec>, ext: ExternalTypes, tags: TagSyntax, examples: ExampleParser)
    requires SchemaDirective(doc).None?
    ensures SpecsFold(st, doc, specs, ext, tags, examples).registry == st.registry
    ensures SpecsFold(st, doc, specs, ext, tags, examples).panicked == st.panicked
    decreases |specs|
  {
    if |specs| > 0 {
      UndirectedSpecs(st, doc, specs[..|specs| - 1], ext, tags, examples);
      SpecStepFrame(SpecsFold(st, doc, specs[..|specs| - 1], ext, tags, examples), doc, specs[|specs| - 1], ext, tags, examples);
    }
  }

  /** Whether each registry entry carries metadata, and if so its custom name: all a reference rewrite looks at. */
  function NameView(reg: map<string, Entity>): (v: map<string, Option<string>>)
    ensures v.Keys == reg.Keys
    ensures forall n :: n in reg ==> (v[n].Some? <==> HasMetadata(reg[n]))
    ensures forall n :: n in reg && HasMetadata(reg[n]) ==> v[n] == Some(CustomName(reg[n]))
  {
    map n | n in reg :: if HasMetadata(reg[n]) then Some(CustomName(reg[n])) else None
  }

  /** Two registries whose entries agree on metadata and custom names have the same view. */
  lemma SameNames(a: map<string, Entity>, b: map<string, Entity>)
    requires a.Keys == b.Keys
    requires forall n :: n in a ==> HasMetadata(a[n]) == HasMetadata(b[n]) && CustomName(a[n]) == CustomName(b[n])
    ensures NameView(a) == NameView(b)
  {
  }

  /**
   * The rewrite of one `$ref`: a reference of four '/'-separated segments
   * whose last segment names a registry entry with metadata gets that
   * entry's custom name as its last segment; any other reference stays.
   */
  function RewriteRef(ref: string, view: map<string, Option<string>>): (r: string)
    ensures var parts := Split(ref, '/'); !(|parts| == 4 && parts[3] in view && view[parts[3]].Some?) ==> r == ref
  {
    var parts := Split(ref, '/');
    if |parts| != 4 then ref
    else if parts[3] in view then
      if view[parts[3]].None? then ref
      else Join(parts[..3] + [view[parts[3]].value], '/')
    else
      JoinSplit(ref, '/');
      Join(parts, '/')
  }

  /** The segments of a schema reference. */
  lemma RefSegments(name: string)
    requires '/' !in name
    ensures RefPrefix + name == Join(["#", "components", "schemas", name], '/')
    ensures Split(RefPrefix + name, '/') == ["#", "components", "schemas", name]
  {
    var parts := ["#", "components", "schemas", name];
    assert Join(parts[3..], '/') == name;
    assert Join(parts[2..], '/') == "schemas" + "/" + name;
    assert Join(parts[1..], '/') == "components" + "/" + ("schemas" + "/" + name);
    assert RefPrefix + name == Join(parts, '/');
    SplitJoin(parts, '/');
  }

  /** A reference to an entry with metadata points, after the rewrite, at that entry's custom name. */
  lemma RegisteredRefRewritten(name: string, view: map<string, Option<string>>)
    requires '/' !in name && name in view && view[name].Some?
    ensures RewriteRef(RefPrefix + name, view) == RefPrefix + view[name].value
  {
    RefSegments(name);
    var parts := ["#", "components", "schemas", name];
    assert parts[..3] + [view[name].value] == ["#", "components", "schemas", view[name].value];
    assert Join(["#", "components", "schemas", view[name].value], '/') == RefPrefix + view[name].value by {
      var c := view[name].value;
      var q := ["#", "components", "schemas", c];
      assert Join(q[3..], '/') == c;
      assert Join(q[2..], '/') == "schemas" + "/" + c;
      assert Join(q[1..], '/') == "components" + "/" + ("schemas" + "/" + c);
    }
  }

  /** A reference to a name without a registry entry, or to the description entry, stays as it is. */
  lemma UnregisteredRefKept(name: string, view: map<string, Option<string>>)
    requires '/' !in name && (name !in view || view[name].None?)
    ensures RewriteRef(RefPrefix + name, view) == RefPrefix + name
  {
    RefSegments(name);
  }

  /**
   * `replaceSchemaNameToCustom` on a node: its own reference, those of its
   * properties and that of its additional-properties node, recursively,
   * are rewritten; nothing else (in particular not the references inside
   * an array's `items`) changes.
   */
  function RewriteRefs(s: Schema, view: map<string, Option<string>>): (r: Schema)
    decreases s
  {
    s.(properties := map k | k in s.properties :: RewriteRefs(s.properties[k], view),
       additionalProperties := if s.additionalProperties.Some? then Some(RewriteRefs(s.additionalProperties.value, view)) else None,
       ref := RewriteRef(s.ref, view))
  }

  /** The rewrite keeps the shape of a node: the same property names, an additional-properties node when there was one, every other field. */
  lemma RewriteRefsShape(s: Schema, view: map<string, Option<string>>)
    ensures var r := RewriteRefs(s, view);
      && r.properties.Keys == s.properties.Keys
      && r.additionalProperties.Some? == s.additionalProperties.Some?
      && r.ref == RewriteRef(s.ref, view)
      && r.(ref := s.ref, properties := s.properties, additionalProperties := s.additionalProperties) == s
  {
  }

  /** When no entry carries metadata, the rewrite changes nothing. */
  lemma {:induction false} RewriteWithoutMetadata(s: Schema, view: map<string, Option<string>>)
    requires forall n :: n in view ==> view[n].None?
    ensures RewriteRefs(s, view) == s
    decreases s
  {
    var r := RewriteRefs(s, view);
    assert r.properties == s.properties by {
      forall k | k in s.properties
        ensures RewriteRefs(s.properties[k], view) == s.properties[k]
      {
        RewriteWithoutMetadata(s.properties[k], view);
      }
    }
    assert r.additionalProperties == s.additionalProperties by {
      if s.additionalProperties.Some? {
        RewriteWithoutMetadata(s.additionalProperties.value, view);
      }
    }
    assert r.ref == s.ref;
  }

  /** A property holding a reference to an entry with a custom name is redirected to that name. */
  lemma PropertyRefRewritten(s: Schema, key: string, name: string, view: map<string, Option<string>>)
    requires key in s.properties && s.properties[key].ref == RefPrefix + name
    requires '/' !in name && name in view && view[name].Some?
    ensures RewriteRefs(s, view).properties[key].ref == RefPrefix + view[name].value
  {
    RegisteredRefRewritten(name, view);
  }

  /** A reference inside an array's `items` is left alone, even when it names an entry with another custom name. */
  lemma ItemRefsKept(s: Schema, name: string, view: map<string, Option<string>>)
    requires "$ref" in s.items && s.items["$ref"] == ItemText(RefPrefix + name)
    ensures RewriteRefs(s, view).items["$ref"] == ItemText(RefPrefix + name)
  {
  }

  /**
   * The entry of an array or map declaration has an empty custom name, so
   * a reference to it is rewritten to the bare prefix, while the schema
   * itself is published under its real name.
   */
  lemma EmptyCustomNameDangles(name: string, reg: map<string, Entity>)
    requires '/' !in name && name != AnyValueName && name in reg && HasMetadata(reg[name]) && CustomName(reg[name]) == ""
    ensures RewriteRef(RefPrefix + name, NameView(reg)) == RefPrefix
    ensures PublishName(name, reg[name]) == name
  {
    RegisteredRefRewritten(name, NameView(reg));
  }

  /** The name an entry is published under: its custom name when it has one, its real name otherwise. */
  function PublishName(realName: string, e: Entity): (n: string)
    ensures n == realName || (n == CustomName(e) && n != "")
    ensures realName != AnyValueName && CustomName(e) != "" ==> n == CustomName(e)
  {
    if realName != AnyValueName && CustomName(e) != "" then CustomName(e) else realName
  }

  /** The entries that are published: "AnyValue", and every entry with metadata. */
  predicate Publishable(realName: string, e: Entity) {
    realName == AnyValueName || HasMetadata(e)
  }

  /**
   * An entry after `composeSpecSchemas` has rewritten it in place: the
   * members of a composition and a plain node have their references
   * rewritten; "AnyValue", a nil node and the description map stay.
   */
  function Rewritten(realName: string, e: Entity, view: map<string, Option<string>>): (r: Entity)
    ensures HasMetadata(r) == HasMetadata(e) && CustomName(r) == CustomName(e)
    ensures realName == AnyValueName || !HasMetadata(e) || e.NilSchema? ==> r == e
    ensures e.Plain? && realName != AnyValueName ==> r == Plain(RewriteRefs(e.schema, view))
    ensures e.Composed? && realName != AnyValueName ==>
              && r.Composed? && r.meta == e.meta && |r.allOf| == |e.allOf|
              && forall i :: 0 <= i < |e.allOf| ==> r.allOf[i] == RewriteRefs(e.allOf[i], view)
  {
    if realName == AnyValueName then e
    else match e
      case Plain(s) => Plain(RewriteRefs(s, view))
      case Composed(m, all) => Composed(m, seq(|all|, i requires 0 <= i < |all| => RewriteRefs(all[i], view)))
      case _ => e
  }

  /** The registry once the entries among `done` were rewritten in place. */
  function RewrittenWithin(reg: map<string, Entity>, done: set<string>): map<string, Entity> {
    map r | r in reg :: if r in done then Rewritten(r, reg[r], NameView(reg)) else reg[r]
  }

  /** Rewriting no entry changes nothing. */
  lemma RewrittenWithinNothing(reg: map<string, Entity>)
    ensures RewrittenWithin(reg, {}) == reg
  {
  }

  /** Rewriting one more entry replaces that entry by its rewritten self. */
  lemma RewrittenWithinStep(reg: map<string, Entity>, done: set<string>, r: string)
    requires r in reg
    ensures RewrittenWithin(reg, done + {r}) == RewrittenWithin(reg, done)[r := Rewritten(r, reg[r], NameView(reg))]
  {
  }

  /** The in-place rewrite keeps what references look at: metadata and custom names. */
  lemma RewrittenKeepsNames(reg: map<string, Entity>, done: set<string>)
    ensures NameView(RewrittenWithin(reg, done)) == NameView(reg)
  {
    SameNames(RewrittenWithin(reg, done), reg);
  }

  /** The names the entries among `done` are published under. */
  function PublishedNames(reg: map<string, Entity>, done: set<string>): set<string> {
    set n | n in done && n in reg && Publishable(n, reg[n]) :: PublishName(n, reg[n])
  }

  /** `e` is what some entry among `done` published under `name`. */
  predicate PublishedBy(reg: map<string, Entity>, done: set<string>, name: string, e: Entity) {
    exists r :: r in done && r in reg && Publishable(r, reg[r]) && PublishName(r, reg[r]) == name
      && e == Rewritten(r, reg[r], NameView(reg))
  }

  /**
   * The published schemas after the entries among `done` were published
   * over `before`: the names of those entries are added, each holding what
   * one of the entries publishing under it gave (several entries may share
   * a name; which one wins follows map iteration order), and every other
   * name keeps its schema.
   */
  predicate Publication(before: map<string, Entity>, reg: map<string, Entity>, done: set<string>, after: map<string, Entity>) {
    && after.Keys == before.Keys + PublishedNames(reg, done)
    && (forall n :: n in after && n in PublishedNames(reg, done) ==> PublishedBy(reg, done, n, after[n]))
    && (forall n :: n in after && n !in PublishedNames(reg, done) ==> after[n] == before[n])
  }

  /** Adding an entry to `done` adds its published name, when it is published. */
  lemma PublishedNamesSnoc(reg: map<string, Entity>, done: set<string>, r: string)
    requires r in reg
    ensures Publishable(r, reg[r]) ==> PublishedNames(reg, done + {r}) == PublishedNames(reg, done) + {PublishName(r, reg[r])}
    ensures !Publishable(r, reg[r]) ==> PublishedNames(reg, done + {r}) == PublishedNames(reg, done)
  {
    if Publishable(r, reg[r]) {
      assert PublishName(r, reg[r]) in PublishedNames(reg, done + {r});
    }
  }

  /** Publishing one more entry that is published extends the publication with its rewritten self. */
  lemma PublicationStep(before: map<string, Entity>, reg: map<string, Entity>, done: set<string>, after: map<string, Entity>, r: string)
    requires Publication(before, reg, done, after) && r in reg && Publishable(r, reg[r])
    ensures Publication(before, reg, done + {r}, after[PublishName(r, reg[r]) := Rewritten(r, reg[r], NameView(reg))])
  {
    var name := PublishName(r, reg[r]);
    var e := Rewritten(r, reg[r], NameView(reg));
    var after' := after[name := e];
    PublishedNamesSnoc(reg, done, r);
    assert after'.Keys == before.Keys + PublishedNames(reg, done + {r});
    assert PublishedBy(reg, done + {r}, name, e) by {
      assert r in done + {r};
    }
    forall n | n in after' && n !in PublishedNames(reg, done + {r})
      ensures after'[n] == before[n]
    {
      assert n != name && n !in PublishedNames(reg, done);
    }
    forall n | n in after' && n in PublishedNames(reg, done + {r}) && n != name
      ensures PublishedBy(reg, done + {r}, n, after'[n])
    {
      assert PublishedBy(reg, done, n, after[n]);
      var w :| w in done && w in reg && Publishable(w, reg[w]) && PublishName(w, reg[w]) == n
        && after[n] == Rewritten(w, reg[w], NameView(reg));
      assert w in done + {r};
    }
  }

  /** An entry that is not published leaves the publication as it is. */
  lemma PublicationSkip(before: map<string, Entity>, reg: map<string, Entity>, done: set<string>, after: map<string, Entity>, r: string)
    requires Publication(before, reg, done, after) && r in reg && !Publishable(r, reg[r])
    ensures Publication(before, reg, done + {r}, after)
  {
    PublishedNamesSnoc(reg, done, r);
    forall n | n in after && n in PublishedNames(reg, done + {r})
      ensures PublishedBy(reg, done + {r}, n, after[n])
    {
      assert PublishedBy(reg, done, n, after[n]);
      var w :| w in done && w in reg && Publishable(w, reg[w]) && PublishName(w, reg[w]) == n
        && after[n] == Rewritten(w, reg[w], NameView(reg));
      assert w in done + {r};
    }
  }

  /** When no two published entries share a name, every entry's published schema is exactly its rewritten self. */
  lemma DistinctNamesPublishExactly(before: map<string, Entity>, reg: map<string, Entity>, after: map<string, Entity>, r: string)
    requires Publication(before, reg, reg.Keys, after)
    requires forall a, b :: a in reg && b in reg && Publishable(a, reg[a]) && Publishable(b, reg[b]) && a != b
               ==> PublishName(a, reg[a]) != PublishName(b, reg[b])
    requires r in reg && Publishable(r, reg[r])
    ensures PublishName(r, reg[r]) in after
    ensures after[PublishName(r, reg[r])] == Rewritten(r, reg[r], NameView(reg))
  {
    var name := PublishName(r, reg[r]);
    assert name in PublishedNames(reg, reg.Keys);
    var w :| w in reg.Keys && w in reg && Publishable(w, reg[w]) && PublishName(w, reg[w]) == name
      && after[name] == Rewritten(w, reg[w], NameView(reg));
  }

  /** An entry published under its custom name is what references to it point at after the rewrite. */
  lemma RefsFollowPublication(name: string, reg: map<string, Entity>)
    requires '/' !in name && name != AnyValueName && name in reg && HasMetadata(reg[name]) && CustomName(reg[name]) != ""
    ensures PublishName(name, reg[name]) in PublishedNames(reg, reg.Keys)
    ensures RewriteRef(RefPrefix + name, NameView(reg)) == RefPrefix + PublishName(name, reg[name])
  {
    RegisteredRefRewritten(name, NameView(reg));
  }
}
