/**
 * The `paths` and `info` parts of the document, and what merging the decoded
 * `@openapi:path` and `@openapi:info` comment blocks into them yields.  The
 * blocks arrive already decoded: a YAML decoding failure is a `Failure`.
 */
module PathsInfo {
  import opened Wrappers
  import opened ModelHelpers

  /** An operation of a path, carried through unchanged (its parameters, bodies and responses are not modelled). */
  datatype Operation = Operation(summary: string, description: string, operationId: string, tags: seq<string>, deprecated: bool)

  /** The operations of one URL, by HTTP verb. */
  type PathItem = map<string, Operation>

  /** The document's `paths`: the operations of every URL. */
  type Paths = map<string, PathItem>

  /** The document's `info` block. */
  datatype Info = Info(
    version: string,
    title: string,
    description: string,
    xLogo: map<string, string>,
    contact: map<string, string>,
    licence: map<string, string>)

  const EmptyInfo: Info := Info("", "", "", map[], map[], map[])

  /** An error of the path blocks: a block that does not decode, or an operation declared twice. */
  datatype PathError = UnmarshalPath(reason: string) | VerbExists(url: string, verb: string)

  /**
   * `AddOperation(url, verb, op)`: the URL gets an entry if it had none, and
   * the verb of that entry is set to the operation, replacing any earlier one.
   */
  function WithOperation(paths: Paths, url: string, verb: string, op: Operation): (r: Paths)
    ensures r.Keys == paths.Keys + {url}
    ensures verb in r[url] && r[url][verb] == op
    ensures r[url].Keys == (if url in paths then paths[url].Keys else {}) + {verb}
    ensures forall v :: v in r[url] && v != verb ==> r[url][v] == paths[url][v]
    ensures forall u :: u in paths && u != url ==> r[u] == paths[u]
  {
    paths[url := (if url in paths then paths[url] else map[])[verb := op]]
  }

  /**
   * One decoded path block merged into the paths: a new URL is taken whole;
   * for a known URL, only the verbs it does not have yet are added.
   */
  function MergeBlock(paths: Paths, block: Paths): (r: Paths)
    ensures r.Keys == paths.Keys + block.Keys
    ensures forall u :: u in r ==> r[u].Keys == (if u in paths then paths[u].Keys else {}) + (if u in block then block[u].Keys else {})
  {
    map u | u in paths.Keys + block.Keys ::
      if u in paths && u in block then block[u] + paths[u]
      else if u in paths then paths[u]
      else block[u]
  }

  /** The operations of a block that the paths already have: each is reported once. */
  function Conflicts(paths: Paths, block: Paths): set<PathError> {
    set u, v | u in block && u in paths && v in block[u] && v in paths[u] :: VerbExists(u, v)
  }

  /** The merge of a block into the paths, and the errors it reports. */
  function PathStep(paths: Paths, block: Result<Paths, string>): (Paths, multiset<PathError>) {
    match block
    case Failure(e) => (paths, multiset{UnmarshalPath(e)})
    case Success(p) => (MergeBlock(paths, p), multiset(Conflicts(paths, p)))
  }

  /** `parsePaths` over the blocks of a file, in order: the resulting paths. */
  function FoldPaths(paths: Paths, blocks: seq<Result<Paths, string>>): (r: Paths)
    ensures paths.Keys <= r.Keys
    ensures forall u :: u in paths ==> paths[u].Keys <= r[u].Keys
  {
    if |blocks| == 0 then paths
    else PathStep(FoldPaths(paths, blocks[..|blocks| - 1]), blocks[|blocks| - 1]).0
  }

  /** `parsePaths` over the blocks of a file, in order: the errors (their order follows map iteration, so a multiset). */
  function FoldPathErrors(paths: Paths, blocks: seq<Result<Paths, string>>): multiset<PathError> {
    if |blocks| == 0 then multiset{}
    else
      var before := FoldPaths(paths, blocks[..|blocks| - 1]);
      FoldPathErrors(paths, blocks[..|blocks| - 1]) + PathStep(before, blocks[|blocks| - 1]).1
  }

  /** An operation already in the paths is never replaced by a later declaration of the same URL and verb. */
  lemma {:induction false} FirstOperationWins(paths: Paths, blocks: seq<Result<Paths, string>>, url: string, verb: string)
    requires url in paths && verb in paths[url]
    ensures url in FoldPaths(paths, blocks) && verb in FoldPaths(paths, blocks)[url]
    ensures FoldPaths(paths, blocks)[url][verb] == paths[url][verb]
    decreases |blocks|
  {
    if |blocks| > 0 {
      FirstOperationWins(paths, blocks[..|blocks| - 1], url, verb);
    }
  }

  /** Every operation of every decoded block is in the resulting paths (possibly as an earlier declaration of it). */
  lemma {:induction false} EveryOperationDeclared(paths: Paths, blocks: seq<Result<Paths, string>>, i: nat, url: string, verb: string)
    requires i < |blocks| && blocks[i].Success?
    requires url in blocks[i].value && verb in blocks[i].value[url]
    ensures url in FoldPaths(paths, blocks) && verb in FoldPaths(paths, blocks)[url]
    decreases |blocks|
  {
    var n := |blocks| - 1;
    if i < n {
      EveryOperationDeclared(paths, blocks[..n], i, url, verb);
      assert blocks[..n][i] == blocks[i];
      FirstOperationWins(FoldPaths(paths, blocks[..n]), [blocks[n]], url, verb);
      var none: seq<Result<Paths, string>> := [];
      assert [blocks[n]][..0] == none;
    }
  }

  /** Merging the same block twice changes nothing the second time, and reports every operation of it. */
  lemma MergeTwice(paths: Paths, block: Paths)
    ensures MergeBlock(MergeBlock(paths, block), block) == MergeBlock(paths, block)
    ensures Conflicts(MergeBlock(paths, block), block)
         == set u, v | u in block && v in block[u] :: VerbExists(u, v)
  {
    var once := MergeBlock(paths, block);
    var twice := MergeBlock(once, block);
    forall u | u in twice
      ensures twice[u] == once[u]
    {
      if u in block {
        assert twice[u] == block[u] + once[u];
        assert twice[u].Keys == once[u].Keys;
      }
    }
  }

  /** A block that declares only new operations adds no error and loses none of them. */
  lemma FreshBlockNoConflict(paths: Paths, block: Paths)
    requires forall u, v :: u in block && v in block[u] && u in paths ==> v !in paths[u]
    ensures Conflicts(paths, block) == {}
    ensures forall u, v :: u in block && v in block[u] ==> MergeBlock(paths, block)[u][v] == block[u][v]
  {
  }

  /** Why reading the info blocks stopped early: a description imports a file that cannot be read. */
  datatype InfoState = InfoState(info: Info, errs: seq<string>, stopped: bool)

  /** A field of the info block is kept when it is already set to something else, and otherwise taken from the block. */
  function FirstSet(current: string, scanned: string): (r: string)
    ensures current != "" ==> r == current
    ensures current == "" ==> r == scanned
  {
    if current != "" && current != scanned then current else scanned
  }

  /**
   * One decoded info block merged into the info: version and title as
   * `FirstSet` says; the description likewise, except that an
   * `import(path)` description is replaced by the contents of the file,
   * and a file that cannot be read ends the scan (version and title are
   * already updated then); the logo is always the block's.
   */
  function InfoStep(st: InfoState, block: Result<Info, string>, files: map<string, string>): (r: InfoState)
    ensures st.stopped ==> r == st
    ensures !st.stopped && block.Failure? ==> r == st.(errs := st.errs + [block.error])
    ensures !st.stopped && block.Success? ==>
              && r.errs == st.errs
              && r.info.version == FirstSet(st.info.version, block.value.version)
              && r.info.title == FirstSet(st.info.title, block.value.title)
              && r.info.contact == st.info.contact && r.info.licence == st.info.licence
  {
    if st.stopped then st
    else match block
      case Failure(e) => st.(errs := st.errs + [e])
      case Success(b) =>
        var info := st.info.(version := FirstSet(st.info.version, b.version), title := FirstSet(st.info.title, b.title));
        if info.description != "" && info.description != b.description then
          st.(info := info.(xLogo := b.xLogo))
        else match ParseImportContentPath(b.description)
          case Failure(_) => st.(info := info.(description := b.description, xLogo := b.xLogo))
          case Success(p) =>
            if p in files then st.(info := info.(description := files[p], xLogo := b.xLogo))
            else st.(info := info, stopped := true)
  }

  /** `parseInfos` over the blocks of a file, in order. */
  function FoldInfos(st: InfoState, blocks: seq<Result<Info, string>>, files: map<string, string>): InfoState {
    if |blocks| == 0 then st
    else InfoStep(FoldInfos(st, blocks[..|blocks| - 1], files), blocks[|blocks| - 1], files)
  }

  /** The scan only ever appends errors: those already reported stay, in order. */
  lemma {:induction false} ErrorsOnlyAppended(st: InfoState, blocks: seq<Result<Info, string>>, files: map<string, string>)
    ensures var r := FoldInfos(st, blocks, files); |st.errs| <= |r.errs| && r.errs[..|st.errs|] == st.errs
    decreases |blocks|
  {
    if |blocks| > 0 {
      ErrorsOnlyAppended(st, blocks[..|blocks| - 1], files);
    }
  }

  /** Once set, the version and the title never change again. */
  lemma {:induction false} VersionAndTitleStick(st: InfoState, blocks: seq<Result<Info, string>>, files: map<string, string>)
    ensures st.info.version != "" ==> FoldInfos(st, blocks, files).info.version == st.info.version
    ensures st.info.title != "" ==> FoldInfos(st, blocks, files).info.title == st.info.title
    decreases |blocks|
  {
    if |blocks| > 0 {
      VersionAndTitleStick(st, blocks[..|blocks| - 1], files);
    }
  }

  /** A description that is set, and is not itself an import, never changes again. */
  lemma {:induction false} DescriptionSticks(st: InfoState, blocks: seq<Result<Info, string>>, files: map<string, string>)
    requires st.info.description != "" && ParseImportContentPath(st.info.description).Failure?
    ensures FoldInfos(st, blocks, files).info.description == st.info.description
    decreases |blocks|
  {
    if |blocks| > 0 {
      DescriptionSticks(st, blocks[..|blocks| - 1], files);
    }
  }

  /** A description importing a file that cannot be read stops the scan: no later block has any effect. */
  lemma MissingImportStops(st: InfoState, b: Info, p: string, rest: seq<Result<Info, string>>, files: map<string, string>)
    requires !st.stopped && (st.info.description == "" || st.info.description == b.description)
    requires ParseImportContentPath(b.description) == Success(p) && p !in files
    ensures var r := FoldInfos(st, [Success(b)] + rest, files);
      r.stopped && r.errs == st.errs && r.info.description == st.info.description && r.info.xLogo == st.info.xLogo
  {
    var all := [Success(b)] + rest;
    var none: seq<Result<Info, string>> := [];
    assert all[..1][..0] == none && all[..1][0] == Success(b);
    assert FoldInfos(st, all[..1], files) == InfoStep(st, Success(b), files);
    StoppedFinal(st, all, 1, files);
  }

  /** Each decoded block that is read replaces the logo: the last one read wins. */
  lemma LastLogoWins(st: InfoState, blocks: seq<Result<Info, string>>, b: Info, files: map<string, string>)
    requires !FoldInfos(st, blocks, files).stopped
    requires ParseImportContentPath(b.description).Success? ==> ParseImportContentPath(b.description).value in files
    ensures FoldInfos(st, blocks + [Success(b)], files).info.xLogo == b.xLogo
  {
    assert (blocks + [Success(b)])[..|blocks|] == blocks;
  }

  /** Once the scan has stopped, the remaining blocks change nothing. */
  lemma {:induction false} StoppedFinal(st: InfoState, blocks: seq<Result<Info, string>>, n: nat, files: map<string, string>)
    requires n <= |blocks| && FoldInfos(st, blocks[..n], files).stopped
    ensures FoldInfos(st, blocks, files) == FoldInfos(st, blocks[..n], files)
    decreases |blocks| - n
  {
    if n < |blocks| {
      var m := |blocks| - 1;
      assert blocks[..m][..n] == blocks[..n];
      StoppedFinal(st, blocks[..m], n, files);
    } else {
      assert blocks[..n] == blocks;
    }
  }
}
