/**
 * The slice of Go's syntax tree that the schema compiler reads: type
 * expressions, struct fields with their raw tag literals and documentation,
 * and top-level declarations.  The tree itself comes from Go's parser, which
 * is not part of this model.
 */
module GoAst {
  import opened Wrappers

  /** A Go type expression (`ast.Expr` in type position). */
  datatype TypeExpr =
    | Ident(name: string)                          // `string`, `int64`, `Pet`, the `time` of `time.Time`
    | Star(x: TypeExpr)                            // `*T`
    | ArrayType(elt: TypeExpr)                     // `[]T` and `[N]T`
    | StructType(fields: seq<Field>)               // `struct { ... }`
    | SelectorExpr(x: TypeExpr, sel: string)       // `X.Sel`
    | MapType(key: TypeExpr, value: TypeExpr)      // `map[K]V`
    | InterfaceType                                // `interface{}`
    | Unsupported                                  // functions, channels and every other expression

  /**
   * A struct field: its names (none for an embedded field), its tag literal
   * as written in the source (back-quoted or double-quoted), its type and the
   * text of its documentation comment.
   */
  datatype Field = Field(names: seq<string>, tag: Option<string>, typ: TypeExpr, doc: string)

  /** A specification inside a `type`, `var`, `const` or `import` declaration. */
  datatype Spec = TypeSpec(name: string, typ: TypeExpr) | OtherSpec

  /** A top-level declaration: a general declaration with its doc text, or a function. */
  datatype Decl = GenDecl(doc: string, specs: seq<Spec>) | FuncDecl

  /**
   * The two library routines the tag extractor relies on, taken as given:
   * `unquote` is `strconv.Unquote` (None when the literal is malformed) and
   * `get` is `reflect.StructTag.Get` (the value stored under a key, "" when
   * the key is absent).
   */
  datatype TagSyntax = TagSyntax(unquote: string -> Option<string>, get: (string, string) -> string)

  /** `ast.Ident.IsExported`: the name starts with an upper-case letter. */
  predicate IsExported(name: string) {
    |name| > 0 && 'A' <= name[0] <= 'Z'
  }
}
