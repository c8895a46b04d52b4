/**
 * The pure helpers of the document model: which source files are scanned,
 * the `@openapi:schema` directive of a declaration, and the `import(...)`
 * form of an info description.
 */
module ModelHelpers {
  import opened Wrappers
  import opened GoStrings
  import opened JsonTag

  /**
   * The file filter: a Go file that is not a dot file, and, when its path
   * mentions "vendor", whose path also mentions one of the vendored
   * packages to parse.
   */
  predicate AcceptedPath(path: string, parseVendors: seq<string>) {
    && (Contains(path, "vendor") ==> exists k :: 0 <= k < |parseVendors| && Contains(path, parseVendors[k]))
    && HasSuffix(path, ".go")
    && !HasPrefix(path, ".")
  }

  /** `validatePath`: the vendor check first, with an early exit from the search, then the suffix and the dot. */
  method ValidatePath(path: string, parseVendors: seq<string>) returns (ok: bool)
    ensures ok <==> AcceptedPath(path, parseVendors)
  {
    if Contains(path, "vendor") {
      var found := false;
      var i := 0;
      while i < |parseVendors| && !found
        invariant 0 <= i <= |parseVendors|
        invariant found <==> exists k :: 0 <= k < i && Contains(path, parseVendors[k])
      {
        if Contains(path, parseVendors[i]) {
          found := true;
        }
        i := i + 1;
      }
      if !found {
        return false;
      }
    }
    if !HasSuffix(path, ".go") {
      return false;
    }
    if HasPrefix(path, ".") {
      return false;
    }
    return true;
  }

  /** Naming more vendored packages never rejects a path that was accepted. */
  lemma MoreVendorsAcceptMore(path: string, vendors: seq<string>, more: seq<string>)
    requires AcceptedPath(path, vendors)
    ensures AcceptedPath(path, vendors + more)
  {
    if Contains(path, "vendor") {
      var k :| 0 <= k < |vendors| && Contains(path, vendors[k]);
      assert (vendors + more)[k] == vendors[k];
    }
  }

  /** A vendored path is rejected when no vendored package is named. */
  lemma VendorPathRejected(path: string)
    requires Contains(path, "vendor")
    ensures !AcceptedPath(path, [])
  {
  }

  /** The three paths the package's own tests reject. */
  lemma RejectedExamples()
    ensures !AcceptedPath("/foo/bar/test/vendor/test.go", [])
    ensures !AcceptedPath("/foo/bar/test/test.py", [])
    ensures !AcceptedPath(".DS_STORE", [])
  {
    assert OccursAt("/foo/bar/test/vendor/test.go", "vendor", 14);
    assert "/foo/bar/test/test.py"[18..] == ".py";
    assert ".DS_STORE"[..1] == ".";
  }

  /** The leftmost occurrence of `sub` in `s` at or after `i`. */
  function FirstOccurrence(s: string, sub: string, i: nat): (r: Option<nat>)
    ensures r.None? <==> forall k :: i <= k ==> !OccursAt(s, sub, k)
    ensures r.Some? ==> i <= r.value && OccursAt(s, sub, r.value)
    ensures r.Some? ==> forall k :: i <= k < r.value ==> !OccursAt(s, sub, k)
    decreases |s| - i
  {
    if OccursAt(s, sub, i) then Some(i)
    else if i < |s| then FirstOccurrence(s, sub, i + 1)
    else None
  }

  /** The marker of a schema declaration. */
  const SchemaMarker: string := "@openapi:schema"

  /** The end of the run of `\w` characters that starts at `i`. */
  function WordRunEnd(s: string, i: nat): (j: nat)
    requires i <= |s|
    ensures i <= j <= |s|
    ensures forall k :: i <= k < j ==> IsWordChar(s[k])
    ensures j == |s| || !IsWordChar(s[j])
    decreases |s| - i
  {
    if i < |s| && IsWordChar(s[i]) then WordRunEnd(s, i + 1) else i
  }

  /**
   * The match of `@openapi:schema:?(\w+)?` in a declaration's documentation:
   * None without the marker, otherwise the word that follows the leftmost
   * marker (after one optional colon), "" when there is none.
   */
  function SchemaDirective(doc: string): (r: Option<string>)
    ensures r.None? <==> !Contains(doc, SchemaMarker)
    ensures r.Some? ==> forall k :: 0 <= k < |r.value| ==> IsWordChar(r.value[k])
  {
    match FirstOccurrence(doc, SchemaMarker, 0)
    case None => None
    case Some(i) =>
      var j := i + |SchemaMarker|;
      var start := if j < |doc| && doc[j] == ':' then j + 1 else j;
      Some(doc[start..WordRunEnd(doc, start)])
  }

  /**
   * The first `@openapi:schema` of a documentation text, wherever it stands,
   * names the schema by the word after it (past one optional colon): `Name`
   * for `@openapi:schema:Name` or `@openapi:schemaName`, "" when no word
   * follows.
   */
  lemma SchemaDirectiveNamed(pre: string, sep: string, name: string, rest: string)
    requires sep == "" || sep == ":"
    requires forall k :: 0 <= k < |pre| ==> !OccursAt(pre + SchemaMarker + sep + name + rest, SchemaMarker, k)
    requires forall k :: 0 <= k < |name| ==> IsWordChar(name[k])
    requires rest == "" || (!IsWordChar(rest[0]) && (sep == ":" || name != "" || rest[0] != ':'))
    ensures SchemaDirective(pre + SchemaMarker + sep + name + rest) == Some(name)
  {
    var doc := pre + SchemaMarker + sep + name + rest;
    var colon := sep == ":";
    assert doc[|pre|..|pre| + |SchemaMarker|] == SchemaMarker;
    assert OccursAt(doc, SchemaMarker, |pre|);
    assert FirstOccurrence(doc, SchemaMarker, 0) == Some(|pre|);
    var j := |pre| + |SchemaMarker|;
    var start := j + (if colon then 1 else 0);
    if colon {
      assert doc[j] == ':';
    } else if name != "" {
      assert doc[j] == name[0];
    } else if rest != "" {
      assert doc[j] == rest[0];
    }
    assert doc[start..start + |name|] == name;
    if start + |name| < |doc| {
      assert doc[start + |name|] == rest[0];
    }
    assert WordRunEnd(doc, start) == start + |name| by {
      WordRunEndAt(doc, start, start + |name|);
    }
  }

  /** A bare first marker, followed by neither a word nor a colon, names nothing: the real name is kept. */
  lemma SchemaDirectiveBare(pre: string, rest: string)
    requires forall k :: 0 <= k < |pre| ==> !OccursAt(pre + SchemaMarker + rest, SchemaMarker, k)
    requires rest == "" || (!IsWordChar(rest[0]) && rest[0] != ':')
    ensures SchemaDirective(pre + SchemaMarker + rest) == Some("")
  {
    assert pre + SchemaMarker + "" + "" + rest == pre + SchemaMarker + rest;
    SchemaDirectiveNamed(pre, "", "", rest);
  }

  /** The word run from `i` ends at the first non-word character. */
  lemma {:induction false} WordRunEndAt(s: string, i: nat, j: nat)
    requires i <= j <= |s|
    requires forall k :: i <= k < j ==> IsWordChar(s[k])
    requires j == |s| || !IsWordChar(s[j])
    ensures WordRunEnd(s, i) == j
    decreases j - i
  {
    if i < j {
      WordRunEndAt(s, i + 1, j);
    }
  }

  const ImportOpen: string := "import("

  /** The first ')' at or after `i`, or the end of `s`. */
  function CloseParen(s: string, i: nat): (j: nat)
    requires i <= |s|
    ensures i <= j <= |s|
    ensures forall k :: i <= k < j ==> s[k] != ')'
    ensures j < |s| ==> s[j] == ')'
    decreases |s| - i
  {
    if i < |s| && s[i] != ')' then CloseParen(s, i + 1) else i
  }

  /** `import\(([^\)]+)\)` matches at `i`: the opener, at least one character other than ')', then ')'. */
  predicate ImportAt(s: string, i: int) {
    OccursAt(s, ImportOpen, i) && var j := CloseParen(s, i + |ImportOpen|); i + |ImportOpen| < j < |s|
  }

  /** The group of the leftmost `import(...)` match at or after `i`. */
  function FindImport(s: string, i: nat): (r: Option<string>)
    ensures r.None? <==> forall k :: i <= k ==> !ImportAt(s, k)
    ensures r.Some? ==> r.value != "" && ')' !in r.value && Contains(s, ImportOpen + r.value + ")")
    ensures r.Some? ==> exists k ::
      && i <= k && ImportAt(s, k) && r.value == s[k + |ImportOpen|..CloseParen(s, k + |ImportOpen|)]
      && forall m :: i <= m < k ==> !ImportAt(s, m)
    decreases |s| - i
  {
    if ImportAt(s, i) then
      var j := CloseParen(s, i + |ImportOpen|);
      var p := s[i + |ImportOpen|..j];
      assert s[i..i + |ImportOpen|] == ImportOpen;
      assert s[j..j + 1] == ")";
      assert s[i..j + 1] == s[i..i + |ImportOpen|] + p + s[j..j + 1];
      assert s[i..j + 1] == ImportOpen + p + ")";
      assert OccursAt(s, ImportOpen + p + ")", i);
      Some(p)
    else if i < |s| then FindImport(s, i + 1)
    else None
  }

  const NotAnImport: string := "Not an import"

  /** `parseImportContentPath`: the path inside the leftmost `import(...)`, or an error when there is none. */
  function ParseImportContentPath(str: string): (r: Result<string, string>)
    ensures r.Failure? <==> forall k :: !ImportAt(str, k)
    ensures r.Failure? ==> r.error == NotAnImport
    ensures r.Success? ==> r.value != "" && ')' !in r.value && Contains(str, ImportOpen + r.value + ")")
  {
    match FindImport(str, 0)
    case None => Failure(NotAnImport)
    case Some(p) => Success(p)
  }

  /** A description that starts with `import(path)` imports exactly `path`. */
  lemma ImportRoundTrip(p: string, rest: string)
    requires p != "" && ')' !in p
    ensures ParseImportContentPath(ImportOpen + p + ")" + rest) == Success(p)
  {
    var s := ImportOpen + p + ")" + rest;
    assert OccursAt(s, ImportOpen, 0);
    assert forall k :: |ImportOpen| <= k < |ImportOpen| + |p| ==> s[k] == p[k - |ImportOpen|];
    assert s[|ImportOpen| + |p|] == ')';
    assert CloseParen(s, |ImportOpen|) == |ImportOpen| + |p| by {
      CloseParenAt(s, |ImportOpen|, |ImportOpen| + |p|);
    }
    assert s[|ImportOpen|..|ImportOpen| + |p|] == p;
  }

  /** The first ')' from `i` is at `j` when nothing before it is one. */
  lemma {:induction false} CloseParenAt(s: string, i: nat, j: nat)
    requires i <= j < |s| && s[j] == ')'
    requires forall k :: i <= k < j ==> s[k] != ')'
    ensures CloseParen(s, i) == j
    decreases j - i
  {
    if i < j {
      CloseParenAt(s, i + 1, j);
    }
  }

  /** Text without the opener is never an import. */
  lemma PlainDescription(str: string)
    requires !Contains(str, ImportOpen)
    ensures ParseImportContentPath(str) == Failure(NotAnImport)
  {
  }
}
