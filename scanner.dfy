/**
 * The scan of the storage root (`parseWSSFolder`): one `Folder` record per entry whose
 * `workspace.json` names a `folder`, built from the manifest, the entry's modification time
 * and its recursive size. A manifest that cannot be opened or parsed raises out of the scan.
 */
module Scanner {
  import opened Seqs
  import opened FileSystem
  import Uri

  /** The record the scan produces for one storage entry (the `Folder` dataclass). */
  datatype Folder = Folder(path: string, workspaceExists: bool, isOld: bool, sizeInBytes: nat)

  /**
   * What the scan consults outside the storage root: the clock (`datetime.now()`, integer seconds),
   * the path component of a URI (`urlparse(uri).path`), and whether a path names an existing
   * directory (`Path(p).is_dir()`).
   */
  datatype Env = Env(now: int, uriPath: string -> string, isDir: string -> bool)

  /** The exceptions that escape the scan. */
  datatype ScanError =
    | RootMissing                     // iterdir on a path that does not exist
    | RootNotADirectory               // iterdir on a file
    | ManifestUnreadable(path: string) // open() of `<entry>/workspace.json` fails
    | ManifestMalformed(path: string)  // json.loads fails

  /** An entry's manifest as the scan sees it. */
  datatype Manifest = Unreadable | Malformed | Obj(fields: map<string, string>)

  const FolderKey: string := "folder"
  const SecondsPerDay: int := 86400
  const StaleAfterDays: int := 30

  /** Opens and parses `<entry>/workspace.json`; only a regular file inside a directory entry can be opened. */
  function ReadManifest(n: Node): (m: Manifest)
    ensures !n.Dir? ==> m == Unreadable
    ensures !m.Unreadable? ==> Lookup(n.children, ManifestName).Some? && Lookup(n.children, ManifestName).value.File?
    ensures m.Obj? ==> Lookup(n.children, ManifestName).value.content == Object(m.fields)
    ensures m.Malformed? ==> Lookup(n.children, ManifestName).value.content == Unparsable
    ensures n.Dir? && Lookup(n.children, ManifestName).Some? && Lookup(n.children, ManifestName).value.File? ==>
              m == (if Lookup(n.children, ManifestName).value.content.Object?
                    then Obj(Lookup(n.children, ManifestName).value.content.fields) else Malformed)
  {
    if !n.Dir? then Unreadable
    else
      match Lookup(n.children, ManifestName)
      case Some(File(_, Object(fields))) => Obj(fields)
      case Some(File(_, Unparsable)) => Malformed
      case _ => Unreadable
  }

  predicate Readable(e: Entry)
  {
    ReadManifest(e.node).Obj?
  }

  /** The entry's manifest parses and has a `folder` key. */
  predicate Keyed(e: Entry)
  {
    Readable(e) && FolderKey in ReadManifest(e.node).fields
  }

  /** `(now - last_modified).days`: whole days elapsed, rounded toward minus infinity. */
  function ElapsedDays(now: int, mtime: int): (days: int)
    ensures days * SecondsPerDay <= now - mtime < (days + 1) * SecondsPerDay
  {
    (now - mtime) / SecondsPerDay
  }

  /** `delta.days > 30`: stale once at least 31 whole days have passed; 30 days and a fraction is not old. */
  function IsOld(now: int, mtime: int): (stale: bool)
    ensures stale <==> now - mtime >= (StaleAfterDays + 1) * SecondsPerDay
    ensures now <= mtime ==> !stale
  {
    ElapsedDays(now, mtime) > StaleAfterDays
  }

  /** `Path(unquote(urlparse(uri).path))` */
  function WorkspacePath(env: Env, uri: string): (p: string)
    ensures |p| <= |env.uriPath(uri)|
    ensures '%' !in env.uriPath(uri) ==> p == env.uriPath(uri)
  {
    var path := env.uriPath(uri);
    if '%' in path then Uri.Unquote(path)
    else
      Uri.UnquoteWithoutEscapes(path);
      Uri.Unquote(path)
  }

  /**
   * The record of an entry with a `folder` key: its path, whether the directory its URI decodes to
   * exists, whether it is stale, and its recursive size.
   */
  function Record(env: Env, rootPath: string, e: Entry): (f: Folder)
    requires Keyed(e)
    ensures f.path == JoinPath(rootPath, e.name)
    ensures f.workspaceExists == env.isDir(WorkspacePath(env, ReadManifest(e.node).fields[FolderKey]))
    ensures f.isOld <==> env.now - e.node.mtime >= (StaleAfterDays + 1) * SecondsPerDay
    ensures f.sizeInBytes == ChildrenSize(e.node.children)
  {
    Folder(JoinPath(rootPath, e.name), env.isDir(WorkspacePath(env, ReadManifest(e.node).fields[FolderKey])),
           IsOld(env.now, e.node.mtime), Size(e.node))
  }

  /** The work of one iteration of the scan loop: raise, skip (no `folder` key) or one record. */
  function Classify(env: Env, rootPath: string, e: Entry): (r: Result<Option<Folder>, ScanError>)
    ensures r.Ok? <==> Readable(e)
    ensures r.Ok? ==> (r.value.Some? <==> Keyed(e))
    ensures r.Ok? && r.value.Some? ==> r.value.value == Record(env, rootPath, e)
  {
    var path := JoinPath(rootPath, e.name);
    match ReadManifest(e.node)
    case Unreadable => Err(ManifestUnreadable(path))
    case Malformed => Err(ManifestMalformed(path))
    case Obj(fields) =>
      if FolderKey !in fields then Ok(None)
      else
        Ok(Some(Record(env, rootPath, e)))
  }

  /** The scan over a list of root entries, in enumeration order; the first error raised ends it. */
  function ScanEntries(env: Env, rootPath: string, cs: seq<Entry>): (r: Result<seq<Folder>, ScanError>)
    ensures r.Ok? ==> |r.value| <= |cs|
  {
    if cs == [] then Ok([])
    else
      match ScanEntries(env, rootPath, cs[..|cs| - 1])
      case Err(err) => Err(err)
      case Ok(fs) =>
        match Classify(env, rootPath, cs[|cs| - 1])
        case Err(err) => Err(err)
        case Ok(None) => Ok(fs)
        case Ok(Some(f)) => Ok(fs + [f])
  }

  /** `parseWSSFolder(path)`, where `root` is what the path names (`None` if nothing). */
  function Scan(env: Env, rootPath: string, root: Option<Node>): (r: Result<seq<Folder>, ScanError>)
    ensures r.Ok? ==> root.Some? && root.value.Dir? && |r.value| <= |root.value.children|
  {
    match root
    case None => Err(RootMissing)
    case Some(Dir(_, cs)) => ScanEntries(env, rootPath, cs)
    case Some(_) => Err(RootNotADirectory)
  }

  function FolderSize(f: Folder): nat
  {
    f.sizeInBytes
  }

  /** Once an error has been raised, later entries do not change the outcome. */
  lemma {:induction false} ScanErrorPersists(env: Env, rootPath: string, cs: seq<Entry>, k: nat)
    requires k <= |cs| && ScanEntries(env, rootPath, cs[..k]).Err?
    ensures ScanEntries(env, rootPath, cs) == ScanEntries(env, rootPath, cs[..k])
  {
    if k == |cs| {
      assert cs[..k] == cs;
    } else {
      var init := cs[..|cs| - 1];
      assert init[..k] == cs[..k];
      ScanErrorPersists(env, rootPath, init, k);
    }
  }

  /** The scan returns a list exactly when every entry's manifest can be opened and parsed: no partial list. */
  lemma {:induction false} ScanOkIff(env: Env, rootPath: string, cs: seq<Entry>)
    ensures ScanEntries(env, rootPath, cs).Ok? <==> forall i :: 0 <= i < |cs| ==> Readable(cs[i])
  {
    if cs != [] {
      var init := cs[..|cs| - 1];
      ScanOkIff(env, rootPath, init);
      assert forall i :: 0 <= i < |init| ==> init[i] == cs[i];
    }
  }

  /** The error raised is the one of the first entry, in enumeration order, whose manifest fails. */
  lemma {:induction false} ScanFirstError(env: Env, rootPath: string, cs: seq<Entry>)
    requires ScanEntries(env, rootPath, cs).Err?
    ensures exists i :: 0 <= i < |cs| && !Readable(cs[i]) && (forall j :: 0 <= j < i ==> Readable(cs[j]))
                        && Classify(env, rootPath, cs[i]).error == ScanEntries(env, rootPath, cs).error
  {
    var n := |cs| - 1;
    var init := cs[..n];
    assert forall i :: 0 <= i < n ==> init[i] == cs[i];
    if ScanEntries(env, rootPath, init).Err? {
      ScanFirstError(env, rootPath, init);
      var i :| 0 <= i < |init| && !Readable(init[i]) && (forall j :: 0 <= j < i ==> Readable(init[j]))
               && Classify(env, rootPath, init[i]).error == ScanEntries(env, rootPath, init).error;
      assert init[i] == cs[i];
    } else {
      ScanOkIff(env, rootPath, init);
      assert !Readable(cs[n]);
    }
  }

  /** One iteration of a successful scan: the earlier entries scanned, and the last one added its record or was skipped. */
  lemma ScanStep(env: Env, rootPath: string, cs: seq<Entry>)
    requires cs != [] && ScanEntries(env, rootPath, cs).Ok?
    ensures ScanEntries(env, rootPath, cs[..|cs| - 1]).Ok? && Readable(cs[|cs| - 1])
    ensures ScanEntries(env, rootPath, cs).value
            == ScanEntries(env, rootPath, cs[..|cs| - 1]).value
               + (if Keyed(cs[|cs| - 1]) then [Record(env, rootPath, cs[|cs| - 1])] else [])
  {
  }

  /**
   * A successful scan holds one record per entry with a `folder` key, in enumeration order:
   * `Indices` lists those entries' positions in increasing order, and the j-th record is the
   * `Record` of the entry at the j-th of them.
   */
  lemma {:induction false} ScanRecords(env: Env, rootPath: string, cs: seq<Entry>)
    requires ScanEntries(env, rootPath, cs).Ok?
    ensures |ScanEntries(env, rootPath, cs).value| == |Indices(cs, Keyed)|
    ensures forall j :: 0 <= j < |Indices(cs, Keyed)| ==>
              ScanEntries(env, rootPath, cs).value[j] == Record(env, rootPath, cs[Indices(cs, Keyed)[j]])
  {
    if cs != [] {
      var n := |cs| - 1;
      var init, last := cs[..n], cs[n];
      ScanStep(env, rootPath, cs);
      ScanRecords(env, rootPath, init);
      var fs0, ix0 := ScanEntries(env, rootPath, init).value, Indices(init, Keyed);
      var fs, ix := ScanEntries(env, rootPath, cs).value, Indices(cs, Keyed);
      assert ix == ix0 + (if Keyed(last) then [n] else []);
      forall j | 0 <= j < |ix0|
        ensures fs[j] == Record(env, rootPath, cs[ix[j]])
      {
        assert fs[j] == fs0[j] && ix[j] == ix0[j];
        assert init[ix0[j]] == cs[ix0[j]];
      }
    }
  }

  /** Distinct entry names give distinct record paths: `path` is a key of the inventory. */
  lemma ScanPathsUnique(env: Env, rootPath: string, cs: seq<Entry>)
    requires DistinctNames(cs) && ScanEntries(env, rootPath, cs).Ok?
    ensures var fs := ScanEntries(env, rootPath, cs).value;
      forall j, k :: 0 <= j < k < |fs| ==> fs[j].path != fs[k].path
  {
    var fs, ix := ScanEntries(env, rootPath, cs).value, Indices(cs, Keyed);
    ScanRecords(env, rootPath, cs);
    forall j, k | 0 <= j < k < |fs| ensures fs[j].path != fs[k].path {
      JoinPathInjective(rootPath, cs[ix[j]].name, cs[ix[k]].name);
    }
  }

  /**
   * The records' sizes add up to at most the root's size, and to exactly the root's size when
   * no entry was skipped.
   */
  lemma {:induction false} ScanSizeBound(env: Env, rootPath: string, cs: seq<Entry>)
    requires ScanEntries(env, rootPath, cs).Ok?
    ensures SumOf(ScanEntries(env, rootPath, cs).value, FolderSize) <= ChildrenSize(cs)
    ensures (forall i :: 0 <= i < |cs| ==> Keyed(cs[i])) ==>
              SumOf(ScanEntries(env, rootPath, cs).value, FolderSize) == ChildrenSize(cs)
  {
    if cs != [] {
      var n := |cs| - 1;
      var init, last := cs[..n], cs[n];
      ScanStep(env, rootPath, cs);
      ScanSizeBound(env, rootPath, init);
      var fs := ScanEntries(env, rootPath, init).value;
      assert ChildrenSize(cs) == ChildrenSize(init) + Size(last.node);
      if Keyed(last) {
        var f := Record(env, rootPath, last);
        assert (fs + [f])[..|fs|] == fs;
        assert SumOf(fs + [f], FolderSize) == SumOf(fs, FolderSize) + Size(last.node);
        if forall i :: 0 <= i < |cs| ==> Keyed(cs[i]) {
          assert forall i :: 0 <= i < n ==> Keyed(init[i]) by {
            assert forall i :: 0 <= i < n ==> init[i] == cs[i];
          }
        }
      }
    }
  }

  /** `parseWSSFolder`: the loop over the root's entries that appends one record per applicable entry. */
  method ParseWSSFolder(env: Env, rootPath: string, root: Option<Node>) returns (r: Result<seq<Folder>, ScanError>)
    ensures r == Scan(env, rootPath, root)
  {
    if root.None? {
      return Err(RootMissing);
    }
    if !root.value.Dir? {
      return Err(RootNotADirectory);
    }
    var cs := root.value.children;
    var result: seq<Folder> := [];
    var i := 0;
    while i < |cs|
      invariant i <= |cs|
      invariant ScanEntries(env, rootPath, cs[..i]) == Ok(result)
    {
      var e := cs[i];
      var path := JoinPath(rootPath, e.name);
      assert cs[..i + 1][..i] == cs[..i];
      match ReadManifest(e.node) {
        case Unreadable =>
          ScanErrorPersists(env, rootPath, cs, i + 1);
          return Err(ManifestUnreadable(path));
        case Malformed =>
          ScanErrorPersists(env, rootPath, cs, i + 1);
          return Err(ManifestMalformed(path));
        case Obj(fields) =>
          if FolderKey in fields {
            var target := WorkspacePath(env, fields[FolderKey]);
            var isOld := IsOld(env.now, e.node.mtime);
            var size := SizeOfFolder(e.node);
            result := result + [Folder(path, env.isDir(target), isOld, size)];
          }
      }
      i := i + 1;
    }
    assert cs[..i] == cs;
    r := Ok(result);
  }
}
