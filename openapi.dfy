/**
 * The document being built: an object whose methods merge what each source
 * file declares into its paths, its info block and its schema registry, and
 * which finally publishes the registered schemas.
 */
module Document {
  import opened Wrappers
  import opened GoStrings
  import opened GoAst
  import opened Schemas
  import opened IdentProperty
  import opened NamedType
  import opened Structs
  import opened ModelHelpers
  import opened PathsInfo
  import opened Registry

  /** The OpenAPI version every document declares. */
  const OpenAPIVersion: string := "3.0.0"

  class OpenAPI {
    var openapi: string
    var info: Info
    var paths: Paths
    /** `components.schemas`: the published schemas. */
    var schemas: map<string, Entity>
    /** The schemas registered so far, by declared name. */
    var registered: map<string, Entity>

    /** `NewOpenAPI`: version "3.0.0", no paths, no published schemas, and "AnyValue" already registered. */
    constructor ()
      ensures openapi == OpenAPIVersion && info == EmptyInfo
      ensures paths == map[] && schemas == map[]
      ensures registered == map[AnyValueName := AnyValueEntity]
    {
      openapi := OpenAPIVersion;
      info := EmptyInfo;
      paths := map[];
      schemas := map[];
      registered := map[AnyValueName := AnyValueEntity];
    }

    /** `AddOperation`: the operation is set for the URL and verb, creating the URL's entry if needed. */
    method AddOperation(url: string, verb: string, op: Operation)
      modifies this
      ensures paths == WithOperation(old(paths), url, verb, op)
      ensures openapi == old(openapi) && info == old(info) && schemas == old(schemas) && registered == old(registered)
    {
      if url !in paths {
        paths := paths[url := map[]];
      }
      paths := paths[url := paths[url][verb := op]];
    }

    /**
     * `parsePaths` over the decoded path blocks of a file: a block that
     * does not decode is reported; a new URL is added whole; for a known
     * URL each verb already present is reported and keeps its operation,
     * and each other verb is added.
     */
    method ParsePaths(blocks: seq<Result<Paths, string>>) returns (errs: seq<PathError>)
      modifies this
      ensures paths == FoldPaths(old(paths), blocks)
      ensures multiset(errs) == FoldPathErrors(old(paths), blocks)
      ensures openapi == old(openapi) && info == old(info) && schemas == old(schemas) && registered == old(registered)
    {
      errs := [];
      for i := 0 to |blocks|
        invariant paths == FoldPaths(old(paths), blocks[..i])
        invariant multiset(errs) == FoldPathErrors(old(paths), blocks[..i])
        invariant openapi == old(openapi) && info == old(info) && schemas == old(schemas) && registered == old(registered)
      {
        assert blocks[..i + 1][..i] == blocks[..i];
        match blocks[i]
        case Failure(e) =>
          errs := errs + [UnmarshalPath(e)];
        case Success(p) =>
          var added := MergeInto(p);
          errs := errs + added;
      }
      assert blocks[..|blocks|] == blocks;
    }

    /** The URL loop of `parsePaths` for one decoded block. */
    method MergeInto(block: Paths) returns (errs: seq<PathError>)
      modifies this
      ensures paths == MergeBlock(old(paths), block)
      ensures multiset(errs) == multiset(Conflicts(old(paths), block))
      ensures openapi == old(openapi) && info == old(info) && schemas == old(schemas) && registered == old(registered)
    {
      errs := [];
      var start := paths;
      var todo := block.Keys;
      ghost var done: set<string> := {};
      MergeNothing(start, block);
      while todo != {}
        invariant todo <= block.Keys && done == block.Keys - todo
        invariant paths == MergedUrls(start, block, done)
        invariant multiset(errs) == ConflictsWithin(start, block, done)
        invariant openapi == old(openapi) && info == old(info) && schemas == old(schemas) && registered == old(registered)
        decreases todo
      {
        var url :| url in todo;
        MergeUrlStep(start, block, done, url);
        ConflictsUrlStep(start, block, done, url);
        var added := MergeUrl(url, block[url]);
        errs := errs + added;
        done := done + {url};
        todo := todo - {url};
      }
      assert done == block.Keys;
      MergeEverything(start, block);
      assert ConflictsWithin(start, block, done) == multiset(Conflicts(start, block));
    }

    /**
     * `parseInfos` over the decoded info blocks of a file; `files` holds the
     * contents of the files an `import(path)` description can name (a path
     * without an entry cannot be read, which ends the scan).
     */
    method ParseInfos(blocks: seq<Result<Info, string>>, files: map<string, string>) returns (errs: seq<string>)
      modifies this
      ensures var r := FoldInfos(InfoState(old(info), [], false), blocks, files); info == r.info && errs == r.errs
      ensures openapi == old(openapi) && paths == old(paths) && schemas == old(schemas) && registered == old(registered)
    {
      ghost var st0 := InfoState(old(info), [], false);
      errs := [];
      for i := 0 to |blocks|
        invariant InfoState(info, errs, false) == FoldInfos(st0, blocks[..i], files)
        invariant openapi == old(openapi) && paths == old(paths) && schemas == old(schemas) && registered == old(registered)
      {
        assert blocks[..i + 1][..i] == blocks[..i];
        match blocks[i]
        case Failure(e) =>
          errs := errs + [e];
        case Success(b) =>
          var stop := MergeInfoBlock(b, files, errs);
          if stop {
            StoppedFinal(st0, blocks, i + 1, files);
            return;
          }
      }
      assert blocks[..|blocks|] == blocks;
    }

    /**
     * The body of `parseInfos` for one decoded block: version, title and
     * description as `InfoStep` says, then the logo; `stop` when the
     * description imports a file that cannot be read.
     */
    method MergeInfoBlock(b: Info, files: map<string, string>, ghost errs: seq<string>) returns (stop: bool)
      modifies this
      ensures InfoState(info, errs, stop) == InfoStep(InfoState(old(info), errs, false), Success(b), files)
      ensures openapi == old(openapi) && paths == old(paths) && schemas == old(schemas) && registered == old(registered)
    {
      stop := false;
      var current := info;
      if current.version != "" && current.version != b.version {
      } else {
        current := current.(version := b.version);
      }
      if current.title != "" && current.title != b.title {
      } else {
        current := current.(title := b.title);
      }
      if current.description != "" && current.description != b.description {
      } else {
        match ParseImportContentPath(b.description)
        case Failure(_) =>
          current := current.(description := b.description);
        case Success(p) =>
          if p !in files {
            info := current;
            return true;
          }
          current := current.(description := files[p]);
      }
      info := current.(xLogo := b.xLogo);
    }

    /**
     * `parseSchemas` over the declarations of a file: every type declared
     * under `@openapi:schema` is registered under its declared name.  A
     * panic (an example given for a map declaration that yields no node)
     * ends the run.
     */
    method ParseSchemas(decls: seq<Decl>, ext: ExternalTypes, tags: TagSyntax, examples: ExampleParser)
      returns (errs: seq<string>, panicked: bool)
      modifies this
      ensures RegState(registered, errs, panicked) == DeclsFold(RegState(old(registered), [], false), decls, ext, tags, examples)
      ensures openapi == old(openapi) && info == old(info) && paths == old(paths) && schemas == old(schemas)
    {
      ghost var st0 := RegState(old(registered), [], false);
      errs := [];
      panicked := false;
      for i := 0 to |decls|
        invariant RegState(registered, errs, false) == DeclsFold(st0, decls[..i], ext, tags, examples)
        invariant openapi == old(openapi) && info == old(info) && paths == old(paths) && schemas == old(schemas)
      {
        assert decls[..i + 1][..i] == decls[..i];
        if decls[i].FuncDecl? {
          continue;
        }
        var doc := decls[i].doc;
        var specs := decls[i].specs;
        errs, panicked := RegisterSpecs(doc, specs, errs, ext, tags, examples);
        if panicked {
          assert RegState(registered, errs, panicked) == DeclsFold(st0, decls, ext, tags, examples) by {
            DeclsPanicFinal(st0, decls[..i + 1], decls[i + 1..], ext, tags, examples);
            assert decls[..i + 1] + decls[i + 1..] == decls;
          }
          return;
        }
      }
      assert decls[..|decls|] == decls;
    }

    /** The specification loop of `parseSchemas` for one declaration documented by `doc`; a panic ends it. */
    method RegisterSpecs(doc: string, specs: seq<Spec>, errsIn: seq<string>,
                         ext: ExternalTypes, tags: TagSyntax, examples: ExampleParser)
      returns (errs: seq<string>, panicked: bool)
      modifies this
      ensures RegState(registered, errs, panicked)
           == SpecsFold(RegState(old(registered), errsIn, false), doc, specs, ext, tags, examples)
      ensures openapi == old(openapi) && info == old(info) && paths == old(paths) && schemas == old(schemas)
    {
      ghost var before := RegState(registered, errsIn, false);
      errs := errsIn;
      panicked := false;
      for j := 0 to |specs|
        invariant RegState(registered, errs, false) == SpecsFold(before, doc, specs[..j], ext, tags, examples)
        invariant openapi == old(openapi) && info == old(info) && paths == old(paths) && schemas == old(schemas)
      {
        errs, panicked := RegisterSpec(doc, specs[j], errs, ext, tags, examples);
        SpecsFoldPrefix(before, doc, specs, j, ext, tags, examples);
        if panicked {
          assert RegState(registered, errs, panicked) == SpecsFold(before, doc, specs, ext, tags, examples) by {
            SpecsPanicFinal(before, doc, specs[..j + 1], specs[j + 1..], ext, tags, examples);
            assert specs[..j + 1] + specs[j + 1..] == specs;
          }
          return;
        }
      }
      assert specs[..|specs|] == specs;
    }

    /** The body of `parseSchemas` for one specification of a declaration documented by `doc`: only type specifications count. */
    method RegisterSpec(doc: string, spec: Spec, errsIn: seq<string>,
                        ext: ExternalTypes, tags: TagSyntax, examples: ExampleParser)
      returns (errs: seq<string>, panicked: bool)
      modifies this
      ensures RegState(registered, errs, panicked)
           == SpecStep(RegState(old(registered), errsIn, false), doc, spec, ext, tags, examples)
      ensures openapi == old(openapi) && info == old(info) && paths == old(paths) && schemas == old(schemas)
    {
      errs := errsIn;
      panicked := false;
      if spec.OtherSpec? {
        return;
      }
      var realName := spec.name;
      var typ := spec.typ;
      var entityName := realName;
      var a := SchemaDirective(doc);
      var ex := examples(doc, typ);
      var example: Option<Example> := None;
      if ex.Failure? {
        errs := errs + [ex.error];
      } else {
        example := ex.value;
      }
      if a.None? {
        return;
      }
      if a.value != "" {
        entityName := a.value;
      }
      var outcome := DeclaredEntity(typ, entityName, ext, tags, examples);
      if outcome.Skip? {
        errs := errs + [outcome.err];
        return;
      }
      errs := errs + outcome.errs;
      var entity := outcome.entity;
      if entity.NilSchema? && example.Some? {
        panicked := true;
        return;
      }
      if entity.Plain? && example.Some? {
        entity := Plain(entity.schema.(example := example));
      }
      registered := registered[realName := entity];
    }

    /**
     * The type switch of `parseSchemas`: the entity a declared type yields,
     * or the error that skips it.  A struct runs the field loop of
     * `parseStructs`; every other kind is computed by `DeclEntity`.
     */
    method DeclaredEntity(typ: TypeExpr, entityName: string, ext: ExternalTypes, tags: TagSyntax, examples: ExampleParser)
      returns (outcome: Outcome)
      ensures outcome == DeclEntity(typ, entityName, ext, tags, examples)
    {
      if typ.StructType? {
        var e, es := ParseStructs(typ.fields, ext, tags, examples);
        outcome := Register(SetCustomName(e, entityName), es);
      } else {
        outcome := DeclEntity(typ, entityName, ext, tags, examples);
      }
    }

    /** `replaceSchemaNameToCustom`: the node with its references, and those of its properties and additional properties, rewritten. */
    method ReplaceSchemaNameToCustom(s: Schema) returns (r: Schema)
      ensures r == RewriteRefs(s, NameView(registered))
      decreases s, 1
    {
      var props := RewriteProperties(s);
      var additional: Option<Schema> := None;
      if s.additionalProperties.Some? {
        var a := ReplaceSchemaNameToCustom(s.additionalProperties.value);
        additional := Some(a);
      }
      var ref := RewriteRefOf(s.ref);
      ghost var want := RewriteRefs(s, NameView(registered));
      assert want.additionalProperties == additional;
      r := s.(properties := props, additionalProperties := additional, ref := ref);
    }

    /** The property loop of `replaceSchemaNameToCustom`: each property rewritten in turn. */
    method RewriteProperties(s: Schema) returns (props: map<string, Schema>)
      ensures props == RewriteRefs(s, NameView(registered)).properties
      decreases s, 0
    {
      ghost var want := RewriteRefs(s, NameView(registered)).properties;
      props := map[];
      var keys := s.properties.Keys;
      while keys != {}
        invariant keys <= s.properties.Keys
        invariant props.Keys == s.properties.Keys - keys
        invariant forall k :: k in props ==> props[k] == want[k]
        decreases keys
      {
        var k :| k in keys;
        var p := ReplaceSchemaNameToCustom(s.properties[k]);
        assert p == want[k];
        props := props[k := p];
        keys := keys - {k};
      }
      assert props.Keys == want.Keys;
    }

    /** The reference part of `replaceSchemaNameToCustom`: the last segment of a four-segment reference to a registered entity with metadata becomes its custom name. */
    method RewriteRefOf(ref: string) returns (r: string)
      ensures r == RewriteRef(ref, NameView(registered))
    {
      var parts := Split(ref, '/');
      if |parts| != 4 {
        return ref;
      }
      if parts[3] in registered {
        if !HasMetadata(registered[parts[3]]) {
          return ref;
        }
        assert parts[..3] + [CustomName(registered[parts[3]])] == parts[3 := CustomName(registered[parts[3]])];
        parts := parts[3 := CustomName(registered[parts[3]])];
      } else {
        JoinSplit(ref, '/');
      }
      r := Join(parts, '/');
    }

    /**
     * `composeSpecSchemas`: every registered entry is rewritten in place (as
     * `Rewritten` says) and published: "AnyValue" as it is under its real
     * name, every other entry with metadata under its custom name, or its
     * real name when it has none; the description map is not published.
     */
    method ComposeSpecSchemas()
      modifies this
      ensures registered == RewrittenWithin(old(registered), old(registered).Keys)
      ensures Publication(old(schemas), old(registered), old(registered).Keys, schemas)
      ensures openapi == old(openapi) && info == old(info) && paths == old(paths)
    {
      ghost var reg := registered;
      ghost var done: set<string> := {};
      var todo := registered.Keys;
      RewrittenWithinNothing(reg);
      assert PublishedNames(reg, {}) == {};
      while todo != {}
        invariant todo <= reg.Keys && done == reg.Keys - todo
        invariant registered == RewrittenWithin(reg, done)
        invariant Publication(old(schemas), reg, done, schemas)
        invariant openapi == old(openapi) && info == old(info) && paths == old(paths)
        decreases todo
      {
        var realName :| realName in todo;
        ghost var published := schemas;
        assert registered[realName] == reg[realName] && NameView(registered) == NameView(reg) by {
          RewrittenKeepsNames(reg, done);
        }
        ComposeEntry(realName);
        assert registered == RewrittenWithin(reg, done + {realName}) by {
          RewrittenWithinStep(reg, done, realName);
        }
        assert Publication(old(schemas), reg, done + {realName}, schemas) by {
          if Publishable(realName, reg[realName]) {
            PublicationStep(old(schemas), reg, done, published, realName);
          } else {
            PublicationSkip(old(schemas), reg, done, published, realName);
          }
        }
        todo := todo - {realName};
        done := done + {realName};
      }
    }

    /** The body of `composeSpecSchemas` for one registered entry. */
    method ComposeEntry(realName: string)
      requires realName in registered
      modifies this
      ensures var e := old(registered)[realName];
        registered == old(registered)[realName := Rewritten(realName, e, NameView(old(registered)))]
      ensures var e := old(registered)[realName];
        schemas == if Publishable(realName, e) then old(schemas)[PublishName(realName, e) := Rewritten(realName, e, NameView(old(registered)))]
                   else old(schemas)
      ensures openapi == old(openapi) && info == old(info) && paths == old(paths)
    {
      var e := registered[realName];
      if realName == AnyValueName {
        schemas := schemas[realName := e];
        assert registered[realName := e] == registered;
        return;
      }
      if !HasMetadata(e) {
        assert registered[realName := e] == registered;
        return;
      }
      var rewritten := e;
      if e.Composed? {
        var all := RewriteAll(e.allOf);
        rewritten := Composed(e.meta, all);
      } else if e.Plain? {
        var s := ReplaceSchemaNameToCustom(e.schema);
        rewritten := Plain(s);
      }
      assert rewritten == Rewritten(realName, e, NameView(registered));
      registered := registered[realName := rewritten];
      var name := realName;
      if CustomName(e) != "" {
        name := CustomName(e);
      }
      schemas := schemas[name := rewritten];
    }

    /** The members of a composition, each rewritten in turn. */
    method RewriteAll(all: seq<Schema>) returns (r: seq<Schema>)
      ensures |r| == |all|
      ensures forall i :: 0 <= i < |all| ==> r[i] == RewriteRefs(all[i], NameView(registered))
    {
      r := [];
      for i := 0 to |all|
        invariant |r| == i
        invariant forall k :: 0 <= k < i ==> r[k] == RewriteRefs(all[k], NameView(registered))
      {
        var s := ReplaceSchemaNameToCustom(all[i]);
        r := r + [s];
      }
    }

    /** One URL of a decoded block: a new URL is added whole, a known one merged verb by verb. */
    method MergeUrl(url: string, item: PathItem) returns (errs: seq<PathError>)
      modifies this
      ensures paths == old(paths)[url := if url in old(paths) then item + old(paths)[url] else item]
      ensures multiset(errs) == multiset(VerbConflicts(old(paths), url, item.Keys))
      ensures openapi == old(openapi) && info == old(info) && schemas == old(schemas) && registered == old(registered)
    {
      if url in paths {
        errs := MergeVerbs(url, item);
      } else {
        paths := paths[url := item];
        errs := [];
        assert VerbConflicts(old(paths), url, item.Keys) == {};
      }
    }

    /** The verb loop of `parsePaths` for a URL the paths already have: verbs already present are reported and kept. */
    method MergeVerbs(url: string, item: PathItem) returns (errs: seq<PathError>)
      requires url in paths
      modifies this
      ensures paths == old(paths)[url := item + old(paths)[url]]
      ensures multiset(errs) == multiset(VerbConflicts(old(paths), url, item.Keys))
      ensures openapi == old(openapi) && info == old(info) && schemas == old(schemas) && registered == old(registered)
    {
      errs := [];
      var verbs := item.Keys;
      assert item - verbs + paths[url] == paths[url];
      assert paths[url := paths[url]] == paths;
      while verbs != {}
        invariant verbs <= item.Keys
        invariant paths == old(paths)[url := item - verbs + old(paths)[url]]
        invariant multiset(errs) == multiset(VerbConflicts(old(paths), url, item.Keys - verbs))
        invariant openapi == old(openapi) && info == old(info) && schemas == old(schemas) && registered == old(registered)
        decreases verbs
      {
        var verb :| verb in verbs;
        VerbConflictsStep(old(paths), url, item.Keys - verbs, verb);
        assert item.Keys - (verbs - {verb}) == item.Keys - verbs + {verb};
        if verb in paths[url] {
          assert verb in old(paths)[url];
          assert item - (verbs - {verb}) + old(paths)[url] == item - verbs + old(paths)[url];
          errs := errs + [VerbExists(url, verb)];
        } else {
          assert item - (verbs - {verb}) + old(paths)[url] == (item - verbs + old(paths)[url])[verb := item[verb]];
          paths := paths[url := paths[url][verb := item[verb]]];
        }
        verbs := verbs - {verb};
      }
      assert item - verbs == item;
    }
  }

  /** The paths after the URLs of a block among `done` were merged. */
  function MergedUrls(start: Paths, block: Paths, done: set<string>): Paths {
    map u | u in start.Keys + (block.Keys * done) ::
      if u in block && u in done then (if u in start then block[u] + start[u] else block[u]) else start[u]
  }

  /** Merging no URL of a block changes nothing and reports nothing. */
  lemma MergeNothing(start: Paths, block: Paths)
    ensures MergedUrls(start, block, {}) == start
    ensures ConflictsWithin(start, block, {}) == multiset{}
  {
    assert PathsWithin(block, {}) == map[];
    assert Conflicts(start, PathsWithin(block, {})) == {};
  }

  /** Merging every URL of a block is merging the block. */
  lemma MergeEverything(start: Paths, block: Paths)
    ensures MergedUrls(start, block, block.Keys) == MergeBlock(start, block)
    ensures PathsWithin(block, block.Keys) == block
  {
  }

  /** Merging one more URL of a block merges its entry. */
  lemma MergeUrlStep(start: Paths, block: Paths, done: set<string>, url: string)
    requires url in block && url !in done
    ensures var m := MergedUrls(start, block, done);
      MergedUrls(start, block, done + {url}) == m[url := if url in m then block[url] + m[url] else block[url]]
  {
  }

  /** The conflicts of the URLs of a block among `done`, as the errors reported for them. */
  function ConflictsWithin(start: Paths, block: Paths, done: set<string>): multiset<PathError> {
    multiset(Conflicts(start, PathsWithin(block, done)))
  }

  /** The conflicts of one more URL of a block are added to, and apart from, the others. */
  lemma ConflictsUrlStep(start: Paths, block: Paths, done: set<string>, url: string)
    requires url in block && url !in done
    ensures ConflictsWithin(start, block, done + {url})
         == ConflictsWithin(start, block, done) + multiset(VerbConflicts(start, url, block[url].Keys))
  {
    var c1 := Conflicts(start, PathsWithin(block, done + {url}));
    var a := Conflicts(start, PathsWithin(block, done));
    var b := VerbConflicts(start, url, block[url].Keys);
    forall x | x in c1
      ensures x in a + b
    {
      var u, v :| u in PathsWithin(block, done + {url}) && u in start && v in PathsWithin(block, done + {url})[u] && v in start[u]
        && x == VerbExists(u, v);
      if u != url {
        assert u in PathsWithin(block, done);
      }
    }
    forall x | x in a
      ensures x in c1 && x.url != url
    {
      var u, v :| u in PathsWithin(block, done) && u in start && v in PathsWithin(block, done)[u] && v in start[u]
        && x == VerbExists(u, v);
      assert u in PathsWithin(block, done + {url});
    }
    forall x | x in b
      ensures x in c1 && x.url == url
    {
      var v :| v in block[url].Keys && url in start && v in start[url] && x == VerbExists(url, v);
      assert url in PathsWithin(block, done + {url});
    }
    assert c1 == a + b;
    DisjointUnion(a, b);
  }

  /** One more verb adds its conflict, if any, to those of the others. */
  lemma VerbConflictsStep(paths: Paths, url: string, verbs: set<string>, verb: string)
    requires verb !in verbs
    ensures url in paths && verb in paths[url] ==>
      multiset(VerbConflicts(paths, url, verbs + {verb})) == multiset(VerbConflicts(paths, url, verbs)) + multiset{VerbExists(url, verb)}
    ensures !(url in paths && verb in paths[url]) ==> VerbConflicts(paths, url, verbs + {verb}) == VerbConflicts(paths, url, verbs)
  {
    if url in paths && verb in paths[url] {
      assert VerbConflicts(paths, url, verbs + {verb}) == VerbConflicts(paths, url, verbs) + {VerbExists(url, verb)};
      DisjointUnion(VerbConflicts(paths, url, verbs), {VerbExists(url, verb)});
    }
  }

  /** The multiset of a union of disjoint sets is the sum of their multisets. */
  lemma DisjointUnion<T>(a: set<T>, b: set<T>)
    requires a !! b
    ensures multiset(a + b) == multiset(a) + multiset(b)
  {
    forall x
      ensures multiset(a + b)[x] == (multiset(a) + multiset(b))[x]
    {
    }
  }

  /** The part of a block that declares the URLs in `urls`. */
  function PathsWithin(block: Paths, urls: set<string>): (r: Paths)
    ensures r.Keys == block.Keys * urls
    ensures forall u :: u in r ==> r[u] == block[u]
  {
    map u | u in block && u in urls :: block[u]
  }

  /** The conflicts of one URL's verbs among `verbs` with the paths. */
  function VerbConflicts(paths: Paths, url: string, verbs: set<string>): set<PathError> {
    set v | v in verbs && url in paths && v in paths[url] :: VerbExists(url, v)
  }
}
