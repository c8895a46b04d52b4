# openapi-parser, modelled in Dafny

openapi-parser reads the comments and type declarations of a Go code base and
builds an OpenAPI 3 document from them. This project models the core of that
compiler:

- **Type resolution.** `parseIdentProperty` and `parseNamedType` turn Go type
  expressions into schema nodes (modules `IdentProperty` and `NamedType`).
  The older resolvers of the same names in `parser.go` are modelled apart
  (module `LegacyResolver`), so that the two can be compared.
- **Struct tags.** `parseJSONTag` reads the `json`, `validate` and
  `openapi-description` keys of a field's tag (module `JsonTag`).
- **Schema compiler.** Modules `Structs`, `Registry` and `Document` cover:
  - `parseStructs` and `parseMaps`;
  - the `parseSchemas` loop over the declarations of a file;
  - `replaceSchemaNameToCustom` and `composeSpecSchemas`, which publish
    registered schemas under their custom names.
- **Paths and info.** Modules `PathsInfo` and `Document` cover
  `parsePaths`, `AddOperation` and `parseInfos`. Module `ModelHelpers` covers
  `validatePath`, the `@openapi:schema` directive and
  `parseImportContentPath`.
- **JSON:API.** `addPrimaryFieldToJSONAPIData` (module `JsonApi`).
- **External types.** `TsvParse` and `TsvLoadTypes`, the loader for the table
  of external types (module `Tsv`).
- **Merge command.** The loop of the `merge` command, which adds the paths and
  schemas of a directory of YAML files to a main document (module `Merge`).

Supporting modules:

- `GoStrings` gives the Go string routines the core relies on: `TrimSpace`,
  `Split`, `Join`, `Fields`, `Contains`, `HasPrefix` and `HasSuffix`.
- `GoAst` is the slice of Go's syntax tree that the compiler reads.
- `Schemas` is the schema node and the registry entry.
- `Wrappers` holds `Option` and `Result`.

Each loop that changes state in place is modelled as an imperative method:

- the document is a class `Document.OpenAPI`, with the fields `openapi`,
  `info`, `paths`, `schemas` (the published components) and `registered`;
- the external-type table is a class `Tsv.TypeTable`;
- the JSON:API data node is a class `JsonApi.SchemaNode`.

Each method is proved against a specification function on values, usually a
left fold over the input in source order. The properties the code promises are
then proved about that function as lemmas.

Go's map iteration order is unspecified. Loops over maps therefore pick an
arbitrary remaining key, and their contracts hold for every order:

- the errors of `parsePaths` are a multiset;
- a publication collision says that *some* registered entry wins;
- a merge conflict names *some* conflicting schema.

## Model

| member | source | states |
|---|---|---|
| IdentProperty.ParseIdentProperty | docparser/parseIdentProperty.go:9-57 | Succeeds exactly for a built-in table name, or for a name with a selector that the external table knows. On failure, type and format are empty and the error names the type. An external hit returns the table's type and format. |
| IdentProperty.ExternalLookup | docparser/parseIdentProperty.go:36-55 | Finds something exactly when `X.Sel`, `Sel` or `X` is in the external table, trying them in that order. |
| IdentProperty.TableEntries | docparser/parseIdentProperty.go:10-35 | The type and format of every built-in name, whatever the selector and the table. |
| IdentProperty.TableIgnoresContext | docparser/parseIdentProperty.go:10-35 | A built-in name resolves the same way, without error, under any selector and any external table. |
| IdentProperty.NoSelectorIgnoresExternal | docparser/parseIdentProperty.go:36-55 | Without a selector the external table is never consulted. An unknown name then fails with "Can't set the type". |
| IdentProperty.StringTypedNames | docparser/parseIdentProperty.go:10-35 | Without a selector, the type is "string" exactly for string, bson, time, byte and json. |
| NamedType.RefTo | docparser/parseNamedType.go:13-22 | A reference node is bare: it points under `#/components/schemas/` and its real name is the target. |
| NamedType.ElementItems | docparser/parseNamedType.go:49-62 | The `items` of an array: type, then items and properties, each present only when the element has a type and a non-empty value. |
| NamedType.ArrayOf | docparser/parseNamedType.go:38-63 | A slice of a binary element collapses to a binary string. Any other slice is an array over the element's items. |
| NamedType.ParseNamedType | docparser/parseNamedType.go:8-112 | Identifiers never fail. Every reference produced is bare and points under `#/components/schemas/`. No resolved node has a custom name. |
| NamedType.StructProperties | docparser/parseNamedType.go:64-83 | An inline struct is an object without reference whose property names come from the field tags. |
| NamedType.IdentResolution | docparser/parseNamedType.go:11-26 | An identifier becomes its primitive type when the lookup succeeds. Otherwise it becomes a reference to the selector, or to the empty name when there is no selector. |
| NamedType.TableIdent | docparser/parseNamedType.go:11-26 | A built-in name resolves to a typed node without reference. |
| NamedType.UnknownIdentEmptyRef | docparser/parseNamedType.go:11-26 | An unknown bare identifier resolves to the dangling reference `#/components/schemas/`. |
| NamedType.QualifiedUnknownIdent | docparser/parseNamedType.go:84-90 | `pkg.Name`, with `pkg` unknown to both tables, resolves to a reference to `Name`. |
| NamedType.SelectorReachesElements | docparser/parseNamedType.go:27-63 | The selector is handed down through a pointer or a slice, so `*pkg.Name` and `[]pkg.Name` refer to `Name`. |
| NamedType.PointerNullable | docparser/parseNamedType.go:27-37 | A pointer fails exactly when its target does. It is the target's node, nullable unless the target is a reference. |
| NamedType.PointerToRefNotNullable | docparser/parseNamedType.go:27-37 | A pointer to a reference is the reference itself, not nullable. |
| NamedType.ArrayBinaryCollapse | docparser/parseNamedType.go:38-48 | A slice whose element is binary is a binary string. |
| NamedType.ByteAndIntSlices | docparser/parseNamedType.go:38-63 | `[]byte` is a binary string. `[]int64` is an array of integers. |
| NamedType.MapResolution | docparser/parseNamedType.go:91-105 | A map resolves exactly when key and value resolve and the key is a string or an integer. The result is a free-form object whose additional properties are the value's node. |
| NamedType.InterfaceAndUnsupported | docparser/parseNamedType.go:106-110 | `interface{}` is a reference to AnyValue. Any other expression kind fails. |
| NamedType.StructPropertiesLast | docparser/parseNamedType.go:68-81 | Each field overwrites the single property name, so only the last field's node remains. |
| NamedType.StructSingleProperty | docparser/parseNamedType.go:64-83 | An inline struct has at most one property: the last field's node, under the JSON name of the first field's tag. |
| NamedType.StructTagError | docparser/parseNamedType.go:68-72 | A malformed tag on the first field fails the struct with the tag's error. |
| JsonTag.JsonTagOf | docparser/parser.go:38-83 | An error comes back exactly when a non-blank tag does not unquote, and then the record holds just the identifier's name. An ignored field is never required and keeps the identifier's name. |
| JsonTag.ParseJSONTag | docparser/parser.go:38-83 | The method returns the record and the error of the tag-reading function `JsonTagOf`. |
| JsonTag.ScanValidate | docparser/parser.go:60-71 | `required` is set exactly when some token is "required". The enum is the one set by the last token carrying `enum=` or `oneof=`. |
| JsonTag.Capture | docparser/parser.go:17-18 | Finds the leftmost match of `key([\w ]+)`: the result is the greedy group of a matching position with no match before it, and nothing exactly when no position matches. |
| JsonTag.NoTagIdentOnly | docparser/parser.go:39-42 | A missing or blank tag gives just the identifier's name, with no error. |
| JsonTag.MalformedTag | docparser/parser.go:43-46 | A tag that does not unquote returns the syntax error and the identifier's name. |
| JsonTag.IgnoredField | docparser/parser.go:51-55 | A `json:"-"` tag marks the field ignored and not required. |
| JsonTag.NamedField | docparser/parser.go:56-78 | A named json key gives that name, not ignored. `required` holds exactly when a validate token is "required"; the enum is the last setter's. |
| JsonTag.NamedFieldResult | docparser/parser.go:56-78 | The whole record for a named json key, including the `openapi-description` value. |
| JsonTag.JsonNameBeforeComma | docparser/parser.go:51 | The JSON name is the prefix of the `json` value up to its first comma. |
| JsonTag.EnumNeedsJsonName | docparser/parser.go:48-79 | An enum or `required` is only ever recorded for a tag that unquotes to a usable json name. |
| JsonTag.LastEnumIsLastSetter | docparser/parser.go:61-71 | The enum comes from the last token that matches either regular expression. |
| JsonTag.NoSetterNoEnum | docparser/parser.go:61-71 | Without such a token the enum stays empty. |
| JsonTag.RequiredEnumExample | docparser/parser.go:38-83 | The tag `json:"jsontagname" validate:"required,enum=a b"` gives name jsontagname, required, and enum [a b]. |
| LegacyResolver.LegacyIdentProperty | docparser/parser.go:153-185 | Succeeds exactly on the built-in table, agreeing with the current resolver there. Elsewhere it returns the name itself as type, with an error. |
| LegacyResolver.LegacyElementItems | docparser/parser.go:115-125 | The legacy `items` never carry properties, and otherwise agree with the current ones. |
| LegacyResolver.LegacyParseNamedType | docparser/parser.go:85-150 | Identifiers always return a node. Structs always fail. A missing node only comes out of a selector, whose error is dropped. |
| LegacyResolver.LegacyAgreesOnCommonFragment | docparser/parser.go:85-150 | On built-in names, pointers, slices, and maps with string keys, the legacy resolver returns exactly the current resolver's node. |
| LegacyResolver.UnknownIdentDiffers | docparser/parser.go:88-99 | An unknown identifier refers to its own name in the legacy resolver, but to the empty name in the current one. |
| LegacyResolver.PointerToRefDiffers | docparser/parser.go:104-107 | A legacy pointer to an unknown name is a nullable reference. The current resolver gives a plain dangling one. |
| LegacyResolver.IntegerKeyDiffers | docparser/parser.go:132-143 | The legacy resolver rejects `map[int]string`. The current one accepts it. |
| LegacyResolver.StructDiffers | docparser/parser.go:127-128 | The legacy resolver rejects inline structs. The current one accepts them. |
| LegacyResolver.SelectorSwallowsError | docparser/parser.go:104-131 | A failing selector yields no node and no error. A pointer or a slice around it then dereferences nil. |
| ModelHelpers.ValidatePath | docparser/model.go:244-270 | Accepts exactly a `.go` path that does not start with a dot and, if it mentions "vendor", contains one of the vendor paths. |
| ModelHelpers.MoreVendorsAcceptMore | docparser/model.go:246-257 | Adding vendor paths never rejects a path that was accepted. |
| ModelHelpers.VendorPathRejected | docparser/model.go:246-257 | With no vendor paths, every path mentioning "vendor" is rejected. |
| ModelHelpers.RejectedExamples | docparser/model.go:244-270 | A vendored file, a Python file and a dot file are rejected. |
| ModelHelpers.SchemaDirective | docparser/model.go:19 | The directive is found exactly when the doc contains `@openapi:schema`. Its captured name is made of word characters. |
| ModelHelpers.SchemaDirectiveNamed | docparser/model.go:559-573 | Wherever the first `@openapi:schema` stands, `@openapi:schema:Name` and `@openapi:schemaName` both capture `Name`, as far as the word run goes. |
| ModelHelpers.SchemaDirectiveBare | docparser/model.go:559-573 | A bare first `@openapi:schema`, wherever it stands, captures the empty name, so the real name is kept. |
| ModelHelpers.FirstOccurrence | docparser/model.go:19 | The leftmost occurrence at or after a position, or nothing exactly when there is none. |
| ModelHelpers.FindImport | docparser/model.go:22 | The group of the leftmost `import(...)` match: the text up to the first `)` after a match with none before it. It is non-empty, free of `)`, and contained in the text. Nothing comes back exactly when no position matches. |
| ModelHelpers.ParseImportContentPath | docparser/model.go:756-762 | Fails with "Not an import" exactly when no `import(...)` matches. Otherwise returns the non-empty path inside the parentheses. |
| ModelHelpers.ImportRoundTrip | docparser/model.go:756-762 | `import(p)` followed by anything yields `p` back. |
| ModelHelpers.PlainDescription | docparser/model.go:756-762 | A text without `import(` is not an import. |
| Structs.Decorate | docparser/model.go:483-489 | A present example replaces the node's example. A non-empty enum replaces its enum. Nothing else changes. |
| Structs.StructEntity | docparser/model.go:521-526 | Without a composition the entity is the own object. With one, the own object is appended as the last member. |
| Structs.ParseStructs | docparser/model.go:449-527 | The method returns the entity and the errors of the field fold `StructFold`. |
| Structs.RequiredInFieldOrder | docparser/model.go:463-470 | The required list holds the JSON names of the exported, required, non-ignored fields, in field order, even those whose type fails. |
| Structs.ComposedIffForeignField | docparser/model.go:495-501 | The entity is a composition exactly when some field is embedded or unexported. |
| Structs.MembersInFieldOrder | docparser/model.go:503-517 | The members before the own object are the resolved embedded fields, in order, with their examples. |
| Structs.PropertyKeys | docparser/model.go:463-493 | A property name is present exactly when some listed field of that JSON name has a type that resolves. |
| Structs.LastFieldProperty | docparser/model.go:472-493 | The last field's property is its node, decorated with its example and enum. |
| Structs.FieldProperty | docparser/model.go:463-493 | Every exported, non-ignored field whose type resolves, and that no later field overwrites, is stored under its JSON name: its node with its example attached and its non-empty tag enum replacing the node's enum. |
| Structs.OwnFieldsOnlyPlain | docparser/model.go:519-523 | A struct of exported named fields gives a plain object. |
| Structs.ObjectStaysObject | docparser/model.go:453-454 | The own schema is always an object. |
| Structs.ParseMaps | docparser/model.go:419-447 | A node comes back exactly for `map[K]interface{}` whose key is a non-identifier or a name the legacy lookup types as string, and it is a free-form object. The key produces an error exactly when it is an unknown identifier. |
| PathsInfo.WithOperation | docparser/model.go:653-658 | `AddOperation` creates the URL if needed, sets that verb's operation, and leaves every other URL and verb alone. |
| PathsInfo.MergeBlock | docparser/model.go:331-350 | After a block, the URLs are the union and each URL's verbs are the union. |
| PathsInfo.FoldPaths | docparser/model.go:302-365 | The blocks never remove a URL, nor a verb of a URL. |
| PathsInfo.FirstOperationWins | docparser/model.go:333-345 | An operation already declared is never replaced by a later block. |
| PathsInfo.EveryOperationDeclared | docparser/model.go:330-350 | Every URL and verb of every decoded block ends up in the paths. |
| PathsInfo.MergeTwice | docparser/model.go:330-350 | Merging a block twice changes nothing more. The second time, every one of its operations is reported as a conflict. |
| PathsInfo.FreshBlockNoConflict | docparser/model.go:330-350 | A block that declares no existing operation reports nothing, and all its operations are kept. |
| PathsInfo.FirstSet | docparser/model.go:688-714 | A version or title, once set, keeps its value. An empty one takes the scanned value. |
| PathsInfo.InfoStep | docparser/model.go:661-752 | Handles one info block. An undecodable block appends its error. Version, title and description follow first-set-wins. An import is replaced by the file's content, and a missing file stops the scan. The logo is always overwritten. |
| PathsInfo.ErrorsOnlyAppended | docparser/model.go:660-754 | The errors already reported stay, in order: the scan only appends. |
| PathsInfo.VersionAndTitleStick | docparser/model.go:688-714 | A non-empty version or title survives any later blocks. |
| PathsInfo.DescriptionSticks | docparser/model.go:716-722 | A set, non-import description survives any later blocks. |
| PathsInfo.MissingImportStops | docparser/model.go:731-740 | An import of a missing file ends `parseInfos` with the errors so far, ignoring later blocks. |
| PathsInfo.LastLogoWins | docparser/model.go:750 | The logo is the one of the last block. |
| PathsInfo.StoppedFinal | docparser/model.go:739 | Once the scan stopped, later blocks change nothing. |
| Document.OpenAPI.constructor | docparser/model.go:51-63 | A new document has version 3.0.0, no paths, no published schemas, and only AnyValue registered, with its description. |
| Document.OpenAPI.AddOperation | docparser/model.go:653-658 | The paths become `WithOperation` of the old paths. The other fields are unchanged. |
| Document.OpenAPI.ParsePaths | docparser/model.go:302-365 | The paths are the fold of the blocks in order. The errors are, as a multiset, those of the fold: one per undecodable block, one per repeated URL and verb. |
| Document.OpenAPI.MergeInto | docparser/model.go:330-350 | Merging one decoded block gives `MergeBlock`. The errors are exactly its verb conflicts. |
| Document.OpenAPI.MergeUrl | docparser/model.go:331-349 | A new URL takes the block's verbs. An existing one keeps its operations and gains the new verbs. Each clash is reported once. |
| Document.OpenAPI.MergeVerbs | docparser/model.go:333-346 | The verb loop of an existing URL gains the new verbs and reports each clash. |
| Document.OpenAPI.ParseInfos | docparser/model.go:660-754 | The info and errors are those of the info-block fold `FoldInfos`, started from the current info. |
| Document.OpenAPI.MergeInfoBlock | docparser/model.go:688-751 | One decoded block updates the info as `InfoStep` does, and says whether the scan stops. |
| Document.OpenAPI.ParseSchemas | docparser/model.go:541-651 | The registry, the errors and the panic flag are those of the declaration fold `DeclsFold`. |
| Document.OpenAPI.RegisterSpecs | docparser/model.go:550-648 | The specifications of one declaration are registered as `SpecsFold`, stopping at a panic. |
| Document.OpenAPI.RegisterSpec | docparser/model.go:553-646 | One specification is registered as `SpecStep`. |
| Document.OpenAPI.DeclaredEntity | docparser/model.go:575-638 | The entity a declaration compiles to is `DeclEntity`; a struct gets it through the field loop of `ParseStructs`. |
| Document.OpenAPI.ReplaceSchemaNameToCustom | docparser/model.go:367-389 | The rewritten node is `RewriteRefs` under the current registry's names. |
| Document.OpenAPI.RewriteProperties | docparser/model.go:372-374 | Each property is rewritten recursively. |
| Document.OpenAPI.RewriteRefOf | docparser/model.go:377-388 | One reference is rewritten as `RewriteRef`. |
| Document.OpenAPI.ComposeSpecSchemas | docparser/model.go:391-417 | Every entry is rewritten in place. The published schemas gain, under each publishable entry's published name, what one such entry became, and keep every other name. |
| Document.OpenAPI.ComposeEntry | docparser/model.go:392-415 | One entry is rewritten and published under its published name, if it has metadata or is AnyValue. |
| Document.OpenAPI.RewriteAll | docparser/model.go:404-406 | Every member of a composition is rewritten. |
| Document.MergeEverything | docparser/model.go:330-350 | Merging all URLs of a block one at a time gives `MergeBlock`. |
| Document.ConflictsUrlStep | docparser/model.go:330-348 | The conflicts of one more URL add to the others, and are distinct from them. |
| Registry.ArrayDeclSchema | docparser/model.go:602-620 | A declared slice is an array whose items hold the element's reference, or else its type. |
| Registry.DeclEntity | docparser/model.go:575-638 | A registered entity is never the AnyValue description. Only a map declaration registers a nil node. |
| Registry.DeclEntityByKind | docparser/model.go:575-638 | Covers each kind. A struct gets the directive's name as custom name. A map registers with no custom name, as a nil node exactly when `parseMaps` gives none. A slice registers exactly when its element resolves. |
| Registry.AttachExample | docparser/model.go:640-644 | An example is attached only to a plain schema. Names are unchanged. |
| Registry.SpecStepFrame | docparser/model.go:553-646 | Once panicked, nothing changes. Errors only grow. Without a directive the registry is unchanged. Only the specification's own name can be added. |
| Registry.DeclaredTypeRegistered | docparser/model.go:559-645 | A type under the directive whose entity is not nil is registered under its real name: the entity with its example attached, carrying the entity's custom name. |
| Registry.CustomNameFromDirective | docparser/model.go:569-632 | A struct or plain type whose doc first carries `@openapi:schema:Name`, anywhere in it, is registered under its real name with custom name `Name`. |
| Registry.SpecsPanicFinal | docparser/model.go:640-645 | After the nil-pointer panic, the remaining specifications change nothing. |
| Registry.SpecsFromPanic | docparser/model.go:640-645 | A fold that starts panicked stays as it is. |
| Registry.DeclsPanicFinal | docparser/model.go:541-651 | After the panic, the remaining declarations change nothing. |
| Registry.SpecsGrow | docparser/model.go:550-648 | Specifications only add registry names and append errors. |
| Registry.DeclsGrow | docparser/model.go:541-651 | Declarations only add registry names and append errors. |
| Registry.UndirectedDeclsRegisterNothing | docparser/model.go:565-567 | Declarations without the directive register nothing and cannot panic. |
| Registry.UndirectedSpecs | docparser/model.go:565-567 | The specifications of an undirected declaration register nothing. |
| Registry.NameView | docparser/model.go:381-386 | What the rewrite sees of an entry: its custom name when it has metadata, nothing for the description map. |
| Registry.SameNames | docparser/model.go:381-386 | Registries that agree on names and metadata rewrite identically. |
| Registry.RewriteRef | docparser/model.go:377-388 | A reference that is not four segments, or whose target has no metadata, is unchanged. |
| Registry.RegisteredRefRewritten | docparser/model.go:381-388 | A reference to a registered entry with metadata points to its custom name. |
| Registry.UnregisteredRefKept | docparser/model.go:381-388 | A reference to an unregistered entry, or to the description map, is unchanged. |
| Registry.RewriteRefsShape | docparser/model.go:367-389 | Rewriting keeps the property names and the presence of additional properties. It changes only the references. |
| Registry.RewriteWithoutMetadata | docparser/model.go:367-389 | With no custom names in view, a schema is left unchanged. |
| Registry.PropertyRefRewritten | docparser/model.go:372-374 | References inside properties are rewritten too. |
| Registry.ItemRefsKept | docparser/model.go:367-389 | References inside array items are never rewritten. |
| Registry.EmptyCustomNameDangles | docparser/model.go:381-388 | A reference to an entry registered with an empty custom name becomes the dangling `#/components/schemas/`. The entry is published under its real name. |
| Registry.PublishName | docparser/model.go:411-414 | The published name is the custom name when it is non-empty, and the real name otherwise. |
| Registry.Rewritten | docparser/model.go:392-410 | Covers what composing does to an entry. Plain schemas and composition members have their references rewritten. AnyValue, nil nodes and the description map are unchanged. |
| Registry.RewrittenKeepsNames | docparser/model.go:391-417 | In-place rewriting never changes the names the rewrite relies on. |
| Registry.PublishedNamesSnoc | docparser/model.go:411-415 | Each publishable entry adds its published name. |
| Registry.PublicationStep | docparser/model.go:411-415 | Publishing one more entry keeps the publication invariant. |
| Registry.PublicationSkip | docparser/model.go:398-401 | Entries without metadata are skipped. |
| Registry.DistinctNamesPublishExactly | docparser/model.go:391-417 | When published names are distinct, each entry is published exactly as rewritten. |
| Registry.RefsFollowPublication | docparser/model.go:381-415 | A rewritten reference points to a name that is actually published. |
| Schemas.SetCustomName | docparser/model.go:138-179 | Setting a custom name sets it on every node with metadata and changes nothing else: the kind, the schema or `allOf` list and the real name stay. A nil node and the description map are returned unchanged. |
| JsonApi.TypeProperty | docparser/jsonapi.go:7-10 | The `type` member is a string whose only allowed value is the resource type. |
| JsonApi.WithPrimaryFields | docparser/jsonapi.go:3-12 | `id` and `type` are set, the other properties are kept, "id" and "type" are appended to the required list, and nothing else changes. |
| JsonApi.AddPrimaryFieldToJSONAPIData | docparser/jsonapi.go:3-12 | The node's schema becomes `WithPrimaryFields` of what it was. |
| JsonApi.AddedTwice | docparser/jsonapi.go:11 | A second call leaves the properties as they were but duplicates the required names. |
| JsonApi.SchemaNode.constructor | docparser/jsonapi.go:3 | Wraps a schema in a node that the helper updates in place. |
| Tsv.Uncommented | docparser/tsv.go:41-42 | The part of a line before the first `#`. |
| Tsv.RecordOfLine | docparser/tsv.go:43-47 | A line gives a record exactly when its uncommented part is not blank. The record's fields, joined by tabs, give that part back. |
| Tsv.RecordsHaveFields | docparser/tsv.go:46-47 | Every record has at least one field. |
| Tsv.BlankLineSkipped | docparser/tsv.go:43-45 | A blank or comment-only line adds no record. |
| Tsv.RecordsAppend | docparser/tsv.go:40-48 | The records of concatenated lines are the concatenation of their records. |
| Tsv.Trimmed | docparser/tsv.go:54-56 | The keys are the header fields, each trimmed. |
| Tsv.RowHas | docparser/tsv.go:61-68 | A column is in a row exactly when some value of that key is present and non-empty after trimming. |
| Tsv.RowValue | docparser/tsv.go:61-68 | A column holds the value of the last field filling it. |
| Tsv.Rows | docparser/tsv.go:59-73 | Rows are never more than the records, and never empty. |
| Tsv.RowsAppend | docparser/tsv.go:51-74 | The rows of concatenated records are the concatenation of their rows. |
| Tsv.FilledRecordKept | docparser/tsv.go:69-72 | A record with some non-empty value gives its row. |
| Tsv.EmptyRecordDropped | docparser/tsv.go:69-71 | A record without values is dropped. |
| Tsv.TsvParse | docparser/tsv.go:36-77 | The rows are those of the records after the header, keyed by the trimmed header. The error is always nil. |
| Tsv.ReadRecords | docparser/tsv.go:38-48 | The line loop gives exactly the records of the lines. |
| Tsv.HeaderAndRows | docparser/tsv.go:50-74 | The record loop takes the first record as the trimmed header, then gives, in order, the non-empty row of each later record (`Rows`). |
| Tsv.RecordRow | docparser/tsv.go:60-68 | The value loop gives exactly the row of the record. |
| Tsv.TrimmedKeys | docparser/tsv.go:53-56 | The header fields are trimmed in place. |
| Tsv.FillTableKeys | docparser/tsv.go:28-32 | The table gains exactly the names the rows declare. Every other entry keeps its value. |
| Tsv.LastRowWins | docparser/tsv.go:28-32 | A name's entry is the type and format of the last row naming it, with "" for a missing column. |
| Tsv.TypeTable.constructor | docparser/tsv.go:14 | The external-type table starts empty. |
| Tsv.TypeTable.Fill | docparser/tsv.go:28-32 | The table becomes `FillTable` of the rows over the old table. |
| Tsv.TypeTable.TsvLoadTypes | docparser/tsv.go:16-34 | A missing or irregular file is no error and changes nothing. A read error is returned and changes nothing. Otherwise the table is filled from the parsed rows. |
| Merge.Restrict | cmd/merge.go:70-84 | The entries of a map whose keys are in a set. |
| Merge.WithItemContents | cmd/merge.go:62-68 | Covers adding a file's path item under a URL. The URL is present exactly when it already was or the item has an operation. The item's operations win, and every other operation is kept. |
| Merge.WithPathsContents | cmd/merge.go:62-68 | Covers adding a file's paths. The URLs are the old ones plus those with operations, each aux operation is set, and every other operation is kept. |
| Merge.NoConflictSchemas | cmd/merge.go:70-84 | Without conflicts, the schemas become the union, and each side's values are kept. |
| Merge.IdenticalSchemasUnchanged | cmd/merge.go:71-80 | A file whose schemas are already present and deeply equal changes no schema. |
| Merge.OtherFilesIgnored | cmd/merge.go:47-50 | A file without the `.yaml` suffix is skipped. |
| Merge.UntouchedSchemaKept | cmd/merge.go:46-86 | A schema that no file mentions keeps its value through the whole merge. |
| Merge.StoppedFinal | cmd/merge.go:51-79 | After the first fatal file, later files do not matter. |
| Merge.MergeEntry | cmd/merge.go:46-86 | A merged `.yaml` file adds its schema names and never changes a schema already present. A conflict names the file and at least one schema. |
| Merge.MergeAll | cmd/merge.go:46-86 | A merge that completes keeps every schema of the main document with its value. |
| Merge.AddItem | cmd/merge.go:64-67 | The verb loop leaves the paths as `WithItem`. Nothing else changes. |
| Merge.AddPaths | cmd/merge.go:62-68 | The paths loop leaves the paths as `WithPaths`. Nothing else changes. |
| Merge.AddSchemas | cmd/merge.go:70-84 | Returns no clash exactly when no shared name differs; a returned clash is a conflicting name. Without a clash the schemas become the union. |
| Merge.MergeFiles | cmd/merge.go:46-86 | The document is merged as `MergeAll`. An unreadable file, or a conflicting schema naming a conflicting name, ends with an error. Info, version and the registry are unchanged. |

## Left out

- Go's parser, the file walk and `Parse` are not part of this model (`Parse`
  also exits non-zero on errors). Declarations, fields and comments come in
  as values of `GoAst`.
- YAML is not part of this model. Path and info blocks arrive already decoded
  or as a decoding error. The merge's marshal and write of the output, and
  its read of the main file, are left out as well.
- The `@openapi:path` and `@openapi:info` regular expressions and the
  tab-to-space replacement only feed YAML, so they are left out with it. The
  `@openapi:schema`, `import(...)`, `enum=` and `oneof=` expressions are
  modelled character by character.
- The example reader `parseExample` and its converters are not part of this
  model. They are the parameter `ExampleParser`.
- `strconv.Unquote` and `reflect.StructTag.Get` are the parameter `TagSyntax`.
- Logging is left out.
- Error texts and `BuildError` wrapping are abstracted: errors are strings or
  small datatypes.
- `Servers`, `Tags`, `Security` and the inside of an operation are opaque.
- `map[string]interface{}` items are the `ItemValue` datatype.
- `IsExported` looks at ASCII upper case only, not at Unicode letters.
- `AddAction`, called by the merge command, is not part of this model. It is
  modelled with the semantics of `AddOperation`.
- The `logrus.Fatal` exits of the merge command become a returned error, and
  the merge stops there.
- The file read of a description `import(...)` is a map from paths to
  contents.
- The `os.Stat` and read of `TsvLoadTypes` are the `TypesFile` datatype:
  missing or not regular, unreadable, or readable text. The external table is
  a field of `Tsv.TypeTable`, not a package global.
- Pointer aliasing is not modelled:
  - schema nodes are values;
  - a node shared by several registry entries, or rewritten twice by
    `replaceSchemaNameToCustom`, is rewritten once per entry;
  - a schema shared between an entry and what it published is two copies.
- In `TsvParse` the keys slice aliases the header record, which Go trims in
  place. The model trims a copy, with the same result.
- Tsv.TsvParse: the error is always nil, as in the source.
- JsonApi.AddPrimaryFieldToJSONAPIData: a node with a nil `Properties` map
  panics in Go. The model has no nil maps and always succeeds.
- The order of map iteration is not modelled:
  - contracts over maps hold for every order;
  - which of several entries sharing a published name wins is left open;
  - the order of `parsePaths` errors is left open;
  - which conflicting schema the merge reports is left open.
- Document.OpenAPI.ComposeSpecSchemas: when two entries publish under the same
  name, the contract says only that one of them wins.
- Merge.MergeFiles: a conflict names some conflicting schema, not a
  particular one.
- Document.OpenAPI.ParsePaths: a URL that YAML decodes with no verbs
  (`/pets:` alone) is a nil path item in Go, and a later block declaring a
  verb under that URL panics when it writes into the nil map
  (docparser/model.go:344). The model has no nil path items: it keeps an
  empty item and merges the later verbs into it.
- Document.OpenAPI.MergeVerbs: the same nil-item panic at
  docparser/model.go:344 is not modelled; the verbs are added.
- Document.OpenAPI.AddOperation: a URL whose item is a nil map panics at
  docparser/model.go:657; the model sets the verb.
- Merge.AddItem: through `AddOperation`, a main document carrying a nil
  path item panics in Go; the model adds the operations.
- Merge.AddSchemas: the conflict test is abstracted. Go decodes each schema
  into a YAML tree and compares the trees with `reflect.DeepEqual`
  (cmd/merge.go:57, 73); the model compares `Entity` values with datatype
  equality. Schema keys the `Schema` datatype does not represent
  (`description`, `title` and the like) are not in the model, so a conflict
  on them alone is not reported. The `meta` of an entity is compared,
  although YAML never decodes it (`yaml:"-"`, docparser/model.go:109-115, 146).
- Merge.MergeFiles: its conflicts are those of `Merge.AddSchemas`, with the
  same abstraction of `reflect.DeepEqual`.
- JsonApi.AddPrimaryFieldToJSONAPIData: docparser/jsonapi.go:4-10 stores
  `schema{...}` values into the `map[string]*schema` properties map
  (docparser/model.go:149), which does not type-check as written. The model
  stores the intended nodes.
- PathsInfo.EveryOperationDeclared: on input with a verbless URL followed by
  a verb for it, Go panics instead of reaching the merged paths this lemma
  describes.
