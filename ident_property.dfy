/**
 * The primitive table: Go identifier names to OpenAPI `(type, format)`
 * pairs, with a fallback to the external-types table loaded from a TSV file
 * (see module Tsv), consulted only when the identifier came with a selector.
 */
module IdentProperty {
  import opened Wrappers

  /** An external type: the OpenAPI type and format a Go type name stands for. */
  datatype ExtTyp = ExtTyp(typ: string, format: string)

  /** The external-types table, keyed by `pkg.Sel`, `Sel` or `pkg`. */
  type ExternalTypes = map<string, ExtTyp>

  /** What `parseIdentProperty` returns: `(t, format, err)`. */
  datatype Primitive = Primitive(typ: string, format: string, err: Option<string>)

  /** The names the `switch` of the primitive table lists. */
  predicate InTable(name: string) {
    name in {"string", "bson", "int", "int8", "int64", "int32", "time", "float64", "bool", "byte", "json"}
  }

  /** The external table lookup for `X.Sel`: first `X.Sel`, then `Sel`, then `X`. */
  function ExternalLookup(name: string, sel: string, ext: ExternalTypes): (r: Option<ExtTyp>)
    ensures r.Some? <==> (name + "." + sel in ext || sel in ext || name in ext)
    ensures name + "." + sel in ext ==> r == Some(ext[name + "." + sel])
    ensures name + "." + sel !in ext && sel in ext ==> r == Some(ext[sel])
    ensures name + "." + sel !in ext && sel !in ext && name in ext ==> r == Some(ext[name])
  {
    if name + "." + sel in ext then Some(ext[name + "." + sel])
    else if sel in ext then Some(ext[sel])
    else if name in ext then Some(ext[name])
    else None
  }

  /** The error message for an identifier nothing resolves. */
  function CannotSetType(name: string): string {
    "Can't set the type " + name
  }

  /**
   * `parseIdentProperty(expr, sel)`.  Table names resolve without error
   * whatever the selector; any other name resolves through the external
   * table when a selector is present, and otherwise fails with type and
   * format both empty (the line that used the name as type is commented out).
   */
  function ParseIdentProperty(name: string, sel: Option<string>, ext: ExternalTypes): (r: Primitive)
    ensures r.err.None? <==> InTable(name) || (sel.Some? && ExternalLookup(name, sel.value, ext).Some?)
    ensures r.err.Some? ==> r == Primitive("", "", Some(CannotSetType(name)))
    ensures !InTable(name) && r.err.None? ==> Some(ExtTyp(r.typ, r.format)) == ExternalLookup(name, sel.value, ext)
  {
    match name
    case "string" => Primitive("string", "", None)
    case "bson" => Primitive("string", "", None)
    case "int" => Primitive("integer", "", None)
    case "int8" => Primitive("integer", "int8", None)
    case "int64" => Primitive("integer", "int64", None)
    case "int32" => Primitive("integer", "int32", None)
    case "time" => Primitive("string", "date-time", None)
    case "float64" => Primitive("number", "", None)
    case "bool" => Primitive("boolean", "", None)
    case "byte" => Primitive("string", "binary", None)
    case "json" => Primitive("string", "binary", None)
    case _ =>
      if sel.Some? && name + "." + sel.value in ext then
        var tp := ext[name + "." + sel.value]; Primitive(tp.typ, tp.format, None)
      else if sel.Some? && sel.value in ext then
        var tp := ext[sel.value]; Primitive(tp.typ, tp.format, None)
      else if sel.Some? && name in ext then
        var tp := ext[name]; Primitive(tp.typ, tp.format, None)
      else
        Primitive("", "", Some(CannotSetType(name)))
  }

  /** The fixed pairs of the table, whatever the selector and the external table. */
  lemma TableEntries(sel: Option<string>, ext: ExternalTypes)
    ensures ParseIdentProperty("string", sel, ext) == Primitive("string", "", None)
    ensures ParseIdentProperty("bson", sel, ext) == Primitive("string", "", None)
    ensures ParseIdentProperty("int", sel, ext) == Primitive("integer", "", None)
    ensures ParseIdentProperty("int8", sel, ext) == Primitive("integer", "int8", None)
    ensures ParseIdentProperty("int32", sel, ext) == Primitive("integer", "int32", None)
    ensures ParseIdentProperty("int64", sel, ext) == Primitive("integer", "int64", None)
    ensures ParseIdentProperty("time", sel, ext) == Primitive("string", "date-time", None)
    ensures ParseIdentProperty("float64", sel, ext) == Primitive("number", "", None)
    ensures ParseIdentProperty("bool", sel, ext) == Primitive("boolean", "", None)
    ensures ParseIdentProperty("byte", sel, ext) == Primitive("string", "binary", None)
    ensures ParseIdentProperty("json", sel, ext) == Primitive("string", "binary", None)
  {
  }

  /** For a table name neither the selector nor the external table matters. */
  lemma TableIgnoresContext(name: string, sel1: Option<string>, sel2: Option<string>, ext1: ExternalTypes, ext2: ExternalTypes)
    requires InTable(name)
    ensures ParseIdentProperty(name, sel1, ext1) == ParseIdentProperty(name, sel2, ext2)
    ensures ParseIdentProperty(name, sel1, ext1).err.None?
  {
  }

  /** Without a selector the external table is never consulted. */
  lemma NoSelectorIgnoresExternal(name: string, ext1: ExternalTypes, ext2: ExternalTypes)
    ensures ParseIdentProperty(name, None, ext1) == ParseIdentProperty(name, None, ext2)
    ensures !InTable(name) ==> ParseIdentProperty(name, None, ext1).err == Some(CannotSetType(name))
  {
  }

  /** Without a selector, exactly five names resolve to the type "string". */
  lemma StringTypedNames(name: string, ext: ExternalTypes)
    ensures ParseIdentProperty(name, None, ext).typ == "string" <==> name in {"string", "bson", "time", "byte", "json"}
  {
  }
}
