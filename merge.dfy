/**
 * The `merge` command: auxiliary documents found in a directory are merged
 * into a main document. Their operations are added to the main paths, and
 * their schemas are added to the main schemas unless a schema of the same
 * name is already there with a different value, which ends the run.
 * The documents arrive already decoded; a file that cannot be read or
 * decoded is a `Failure`, which also ends the run.
 */
module Merge {
  import opened Wrappers
  import opened GoStrings
  import opened Schemas
  import opened PathsInfo
  import opened Document

  /** What an auxiliary document contributes: its paths and its schemas. */
  datatype AuxSpec = AuxSpec(paths: Paths, schemas: map<string, Entity>)

  /** A directory entry: its name, and its decoded document or why it could not be read or decoded. */
  datatype DirEntry = DirEntry(name: string, contents: Result<AuxSpec, string>)

  /** The fatal errors of the merge: they end the run and nothing is written. */
  datatype MergeError = BadFile(file: string, reason: string) | SchemaConflict(schema: string, file: string)

  /** The part of the main document the merge changes. */
  datatype MainState = MainState(paths: Paths, schemas: map<string, Entity>)

  /** Where the merge of a run of entries ends: merged so far, or stopped on a fatal error. */
  datatype Outcome =
    | Merged(main: MainState)
    | Unreadable(file: string, reason: string)
    | Conflicting(file: string, names: set<string>)

  /** Only entries named `*.yaml` are merged. */
  predicate IsYaml(name: string) {
    HasSuffix(name, ".yaml")
  }

  /** The entries of `m` whose keys are in `d`. */
  function Restrict<V>(m: map<string, V>, d: set<string>): (r: map<string, V>)
    ensures r.Keys == m.Keys * d
    ensures forall k :: k in r ==> r[k] == m[k]
  {
    map k | k in m && k in d :: m[k]
  }

  /**
   * The operations of `item` added under `url`, each replacing any operation
   * of the same verb; an item without operations adds nothing, not even the
   * URL.
   */
  function WithItem(paths: Paths, url: string, item: PathItem): Paths {
    if item == map[] then paths
    else paths[url := if url in paths then paths[url] + item else item]
  }

  /**
   * The URL gets an entry exactly when the item has an operation; each
   * operation of the item is set, and every other URL is kept.
   */
  lemma WithItemContents(paths: Paths, url: string, item: PathItem)
    ensures item == map[] ==> WithItem(paths, url, item) == paths
    ensures item != map[] ==> WithItem(paths, url, item).Keys == paths.Keys + {url}
    ensures forall v :: v in item ==> v in WithItem(paths, url, item)[url] && WithItem(paths, url, item)[url][v] == item[v]
    ensures forall u :: u in paths && u != url ==> WithItem(paths, url, item)[u] == paths[u]
  {
  }

  /** `AddOperation` of one more verb of the item is `WithItem` of the larger part of it. */
  lemma WithItemStep(paths: Paths, url: string, part: PathItem, verb: string, op: Operation)
    ensures WithOperation(WithItem(paths, url, part), url, verb, op) == WithItem(paths, url, part[verb := op])
  {
    if url in paths && part == map[] {
      assert paths[url][verb := op] == paths[url] + part[verb := op];
    } else if url in paths {
      assert (paths[url] + part)[verb := op] == paths[url] + part[verb := op];
    } else if part == map[] {
      assert map[][verb := op] == part[verb := op];
    }
  }

  /** The URLs among `urls` with at least one aux operation. */
  function NonEmptyUrls(aux: Paths, urls: set<string>): set<string> {
    set u | u in aux && u in urls && aux[u] != map[]
  }

  /** The operations of the aux paths of the URLs in `urls`, added to `paths`. */
  function WithPathsOf(paths: Paths, aux: Paths, urls: set<string>): Paths {
    map u | u in paths.Keys + NonEmptyUrls(aux, urls) ::
      if u in aux && u in urls then (if u in paths then paths[u] + aux[u] else aux[u]) else paths[u]
  }

  /** All operations of the aux paths added to `paths`. */
  function WithPaths(paths: Paths, aux: Paths): Paths {
    WithPathsOf(paths, aux, aux.Keys)
  }

  /** The schema names both maps have, with different values. */
  function ConflictingNames(main: map<string, Entity>, aux: map<string, Entity>): set<string> {
    set k | k in aux && k in main && main[k] != aux[k]
  }

  /** One directory entry merged into the main state. */
  function MergeEntry(st: MainState, e: DirEntry): (r: Outcome)
    ensures r.Merged? ==> forall k :: k in st.schemas ==> k in r.main.schemas && r.main.schemas[k] == st.schemas[k]
    ensures r.Merged? && IsYaml(e.name) && e.contents.Success? ==> r.main.schemas.Keys == st.schemas.Keys + e.contents.value.schemas.Keys
    ensures r.Conflicting? ==> r.file == e.name && r.names != {}
  {
    if !IsYaml(e.name) then Merged(st)
    else if e.contents.Failure? then Unreadable(e.name, e.contents.error)
    else
      var aux := e.contents.value;
      var paths := WithPaths(st.paths, aux.paths);
      var clash := ConflictingNames(st.schemas, aux.schemas);
      if clash != {} then Conflicting(e.name, clash)
      else
        assert forall k :: k in aux.schemas && k in st.schemas ==> k !in clash;
        Merged(MainState(paths, st.schemas + aux.schemas))
  }

  /** The merge of the directory's entries, in order, stopping at the first fatal error. */
  function MergeAll(st: MainState, entries: seq<DirEntry>): (r: Outcome)
    ensures r.Merged? ==> forall k :: k in st.schemas ==> k in r.main.schemas && r.main.schemas[k] == st.schemas[k]
  {
    if |entries| == 0 then Merged(st)
    else
      var before := MergeAll(st, entries[..|entries| - 1]);
      if before.Merged? then MergeEntry(before.main, entries[|entries| - 1]) else before
  }

  /** Nothing of the aux paths added leaves the paths as they were. */
  lemma WithPathsOfNothing(paths: Paths, aux: Paths)
    ensures WithPathsOf(paths, aux, {}) == paths
  {
    assert NonEmptyUrls(aux, {}) == {};
  }

  /** Adding the operations of one more URL is `WithItem` of its item. */
  lemma WithPathsOfStep(paths: Paths, aux: Paths, urls: set<string>, url: string)
    requires url in aux && url !in urls
    ensures WithPathsOf(paths, aux, urls + {url}) == WithItem(WithPathsOf(paths, aux, urls), url, aux[url])
  {
    assert NonEmptyUrls(aux, urls + {url}) == NonEmptyUrls(aux, urls) + (if aux[url] == map[] then {} else {url});
    if aux[url] == map[] && url in paths {
      assert paths[url] + aux[url] == paths[url];
    }
  }

  /**
   * The paths after merging an aux document: every URL of main and every
   * URL with an aux operation; every aux operation is there, replacing any
   * main operation of the same URL and verb; every other main operation
   * is kept.
   */
  lemma WithPathsContents(paths: Paths, aux: Paths)
    ensures WithPaths(paths, aux).Keys == paths.Keys + NonEmptyUrls(aux, aux.Keys)
    ensures forall u, v :: u in aux && v in aux[u] ==> WithPaths(paths, aux)[u][v] == aux[u][v]
    ensures forall u, v :: u in paths && v in paths[u] && (u !in aux || v !in aux[u])
              ==> v in WithPaths(paths, aux)[u] && WithPaths(paths, aux)[u][v] == paths[u][v]
  {
    var r := WithPaths(paths, aux);
    forall u, v | u in aux && v in aux[u]
      ensures r[u][v] == aux[u][v]
    {
      assert u in NonEmptyUrls(aux, aux.Keys);
    }
  }

  /** The names of the schemas that may end up in main: those of main and those of the aux document. */
  lemma NoConflictSchemas(main: map<string, Entity>, aux: map<string, Entity>)
    requires ConflictingNames(main, aux) == {}
    ensures (main + aux).Keys == main.Keys + aux.Keys
    ensures forall k :: k in main ==> (main + aux)[k] == main[k]
    ensures forall k :: k in aux ==> (main + aux)[k] == aux[k]
  {
    forall k | k in main
      ensures (main + aux)[k] == main[k]
    {
      if k in aux {
        assert k !in ConflictingNames(main, aux);
      }
    }
  }

  /** An aux document whose schemas main already has, with the same values, leaves the schemas unchanged. */
  lemma IdenticalSchemasUnchanged(st: MainState, e: DirEntry)
    requires IsYaml(e.name) && e.contents.Success?
    requires forall k :: k in e.contents.value.schemas ==> k in st.schemas && st.schemas[k] == e.contents.value.schemas[k]
    ensures MergeEntry(st, e).Merged?
    ensures MergeEntry(st, e).main.schemas == st.schemas
  {
    var aux := e.contents.value.schemas;
    assert ConflictingNames(st.schemas, aux) == {};
    NoConflictSchemas(st.schemas, aux);
    assert (st.schemas + aux).Keys == st.schemas.Keys;
  }

  /** An entry whose name does not end in ".yaml" changes nothing. */
  lemma OtherFilesIgnored(st: MainState, e: DirEntry)
    requires !IsYaml(e.name)
    ensures MergeEntry(st, e) == Merged(st)
  {
  }

  /** A schema of main that no merged document names keeps its value. */
  lemma {:induction false} UntouchedSchemaKept(st: MainState, entries: seq<DirEntry>, k: string)
    requires k in st.schemas
    requires forall i :: 0 <= i < |entries| && entries[i].contents.Success? ==> k !in entries[i].contents.value.schemas
    ensures MergeAll(st, entries).Merged? ==> k in MergeAll(st, entries).main.schemas && MergeAll(st, entries).main.schemas[k] == st.schemas[k]
    decreases |entries|
  {
    if |entries| > 0 {
      var n := |entries| - 1;
      assert forall i :: 0 <= i < n ==> entries[..n][i] == entries[i];
      UntouchedSchemaKept(st, entries[..n], k);
    }
  }

  /** Once the merge has stopped, later entries change nothing. */
  lemma {:induction false} StoppedFinal(st: MainState, entries: seq<DirEntry>, n: nat)
    requires n <= |entries| && !MergeAll(st, entries[..n]).Merged?
    ensures MergeAll(st, entries) == MergeAll(st, entries[..n])
    decreases |entries| - n
  {
    if n < |entries| {
      var m := |entries| - 1;
      assert entries[..m][..n] == entries[..n];
      StoppedFinal(st, entries[..m], n);
    } else {
      assert entries[..n] == entries;
    }
  }

  /**
   * The aux operations of one URL added to the main paths through
   * `AddOperation`, one verb at a time.
   */
  method AddItem(main: OpenAPI, url: string, item: PathItem)
    modifies main
    ensures main.paths == WithItem(old(main.paths), url, item)
    ensures main.schemas == old(main.schemas) && main.registered == old(main.registered) && main.info == old(main.info)
    ensures main.openapi == old(main.openapi)
  {
    ghost var p0 := main.paths;
    var verbs := item.Keys;
    assert item - verbs == map[];
    while verbs != {}
      invariant verbs <= item.Keys
      invariant main.paths == WithItem(p0, url, item - verbs)
      invariant main.schemas == old(main.schemas) && main.registered == old(main.registered) && main.info == old(main.info)
      invariant main.openapi == old(main.openapi)
      decreases verbs
    {
      var verb :| verb in verbs;
      ghost var part := item - verbs;
      main.AddOperation(url, verb, item[verb]);
      WithItemStep(p0, url, part, verb, item[verb]);
      assert item - (verbs - {verb}) == part[verb := item[verb]];
      verbs := verbs - {verb};
    }
    assert item - verbs == item;
  }

  /** The path loop of one aux document: every URL's operations added through `AddItem`. */
  method AddPaths(main: OpenAPI, aux: Paths)
    modifies main
    ensures main.paths == WithPaths(old(main.paths), aux)
    ensures main.schemas == old(main.schemas) && main.registered == old(main.registered) && main.info == old(main.info)
    ensures main.openapi == old(main.openapi)
  {
    ghost var p0 := main.paths;
    var todo := aux.Keys;
    ghost var done: set<string> := {};
    WithPathsOfNothing(p0, aux);
    while todo != {}
      invariant todo <= aux.Keys && done == aux.Keys - todo
      invariant main.paths == WithPathsOf(p0, aux, done)
      invariant main.schemas == old(main.schemas) && main.registered == old(main.registered) && main.info == old(main.info)
      invariant main.openapi == old(main.openapi)
      decreases todo
    {
      var url :| url in todo;
      AddItem(main, url, aux[url]);
      WithPathsOfStep(p0, aux, done, url);
      todo := todo - {url};
      done := done + {url};
    }
  }

  /**
   * The schema loop of one aux document: a new name is added, an equal
   * schema is skipped, and a different one stops the loop with the
   * conflicting name.
   */
  method AddSchemas(main: OpenAPI, aux: map<string, Entity>) returns (clash: Option<string>)
    modifies main
    ensures clash.None? <==> ConflictingNames(old(main.schemas), aux) == {}
    ensures clash.Some? ==> clash.value in ConflictingNames(old(main.schemas), aux)
    ensures clash.None? ==> main.schemas == old(main.schemas) + aux
    ensures main.paths == old(main.paths) && main.registered == old(main.registered) && main.info == old(main.info)
    ensures main.openapi == old(main.openapi)
  {
    ghost var s0 := main.schemas;
    var todo := aux.Keys;
    ghost var done: set<string> := {};
    while todo != {}
      invariant todo <= aux.Keys && done == aux.Keys - todo
      invariant main.schemas == s0 + Restrict(aux, done)
      invariant forall k :: k in done ==> k !in ConflictingNames(s0, aux)
      invariant main.paths == old(main.paths) && main.registered == old(main.registered) && main.info == old(main.info)
      invariant main.openapi == old(main.openapi)
      decreases todo
    {
      var k :| k in todo;
      SchemaLookup(s0, aux, done, k);
      SchemaStep(s0, aux, done, k);
      if k in main.schemas {
        if main.schemas[k] != aux[k] {
          assert k in ConflictingNames(s0, aux);
          return Some(k);
        }
        assert main.schemas[k := aux[k]] == main.schemas;
      } else {
        main.schemas := main.schemas[k := aux[k]];
      }
      todo := todo - {k};
      done := done + {k};
    }
    assert Restrict(aux, done) == aux;
    assert ConflictingNames(s0, aux) == {} by {
      forall k | k in ConflictingNames(s0, aux)
        ensures false
      {
      }
    }
    clash := None;
  }

  /** A name not yet merged is in the schemas exactly when main had it, with main's value. */
  lemma SchemaLookup(s0: map<string, Entity>, aux: map<string, Entity>, done: set<string>, k: string)
    requires k !in done
    ensures k in s0 + Restrict(aux, done) <==> k in s0
    ensures k in s0 ==> (s0 + Restrict(aux, done))[k] == s0[k]
  {
  }

  /** Merging one more name sets it to the aux value. */
  lemma SchemaStep(s0: map<string, Entity>, aux: map<string, Entity>, done: set<string>, k: string)
    requires k in aux
    ensures s0 + Restrict(aux, done + {k}) == (s0 + Restrict(aux, done))[k := aux[k]]
  {
    assert Restrict(aux, done + {k}) == Restrict(aux, done)[k := aux[k]];
  }

  /**
   * The merge loop over the directory's entries: entries not named
   * `*.yaml` are skipped; a file that cannot be read or decoded, or a
   * schema that main has with a different value, ends the run with that
   * error (naming some conflicting schema and the file); otherwise the
   * paths and schemas end as `MergeAll` says.
   */
  method MergeFiles(main: OpenAPI, entries: seq<DirEntry>) returns (err: Option<MergeError>)
    modifies main
    ensures var o := MergeAll(MainState(old(main.paths), old(main.schemas)), entries);
      && (o.Merged? <==> err.None?)
      && (o.Merged? ==> main.paths == o.main.paths && main.schemas == o.main.schemas)
      && (o.Unreadable? ==> err == Some(BadFile(o.file, o.reason)))
      && (o.Conflicting? ==> err.Some? && err.value.SchemaConflict? && err.value.file == o.file && err.value.schema in o.names)
    ensures main.registered == old(main.registered) && main.info == old(main.info) && main.openapi == old(main.openapi)
  {
    ghost var st0 := MainState(main.paths, main.schemas);
    for i := 0 to |entries|
      invariant MergeAll(st0, entries[..i]) == Merged(MainState(main.paths, main.schemas))
      invariant main.registered == old(main.registered) && main.info == old(main.info) && main.openapi == old(main.openapi)
    {
      assert entries[..i + 1][..i] == entries[..i];
      var e := entries[i];
      if !HasSuffix(e.name, ".yaml") {
        continue;
      }
      if e.contents.Failure? {
        assert MergeAll(st0, entries) == Unreadable(e.name, e.contents.error) by {
          StoppedFinal(st0, entries, i + 1);
        }
        return Some(BadFile(e.name, e.contents.error));
      }
      var aux := e.contents.value;
      ghost var st := MainState(main.paths, main.schemas);
      AddPaths(main, aux.paths);
      var clash := AddSchemas(main, aux.schemas);
      if clash.Some? {
        assert MergeAll(st0, entries) == Conflicting(e.name, ConflictingNames(st.schemas, aux.schemas)) by {
          StoppedFinal(st0, entries, i + 1);
        }
        return Some(SchemaConflict(clash.value, e.name));
      }
    }
    assert entries[..|entries|] == entries;
    err := None;
  }
}
