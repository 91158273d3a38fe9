/**
 * The part of `main` between the scan and the deletion: the unwanted list, its byte total, the
 * whole root's size, and the checks that stop the run before anything is removed.
 */
module Planner {
  import opened Seqs
  import opened FileSystem
  import opened Scanner
  import Validity

  /** Which of the two revisions of the script runs: workspaceStorage_cleaner.py or main.py. */
  datatype Revision = Cleaner | MainScript

  /** `x.is_old or not x.workspace_exists` */
  function Eligible(f: Folder): bool
  {
    f.isOld || !f.workspaceExists
  }

  /** `[x for x in folders if x.is_old or not x.workspace_exists]`: the eligible records, in scan order. */
  function Unwanted(folders: seq<Folder>): (u: seq<Folder>)
    ensures forall f :: f in u <==> f in folders && (f.isOld || !f.workspaceExists)
    ensures |u| == |Indices(folders, Eligible)|
    ensures forall j :: 0 <= j < |u| ==> u[j] == folders[Indices(folders, Eligible)[j]]
  {
    FilterAtIndices(folders, Eligible);
    Filter(folders, Eligible)
  }

  /** `sum(x.sizeinbytes for x in unwanted_folders)` */
  function UnwantedSize(folders: seq<Folder>): (total: nat)
    ensures total <= SumOf(folders, FolderSize)
    ensures Unwanted(folders) == [] ==> total == 0
  {
    SumOfFilterLe(folders, Eligible, FolderSize);
    SumOf(Unwanted(folders), FolderSize)
  }

  /** The reclaimable bytes never exceed `getSizeOfFolder` of the root, so the percentage is at most 100. */
  lemma UnwantedSizeBound(env: Env, rootPath: string, root: Option<Node>)
    requires Scan(env, rootPath, root).Ok?
    ensures UnwantedSize(Scan(env, rootPath, root).value) <= Size(root.value)
  {
    var folders := Scan(env, rootPath, root).value;
    SumOfFilterLe(folders, Eligible, FolderSize);
    ScanSizeBound(env, rootPath, root.value.children);
  }

  /** Why a run ends without an outcome of the deletion loop. */
  datatype RunError =
    | ListFailed                 // main.py's isValidWSSPath on an existing non-directory
    | ScanFailed(err: ScanError) // parseWSSFolder raised
    | ZeroDivision               // `100 * unwanted_size / total_size` with total_size == 0

  datatype Halt = Crashed(error: RunError) | NothingUnwanted | Declined

  /** What `main` does once the root and the user's answer are known: stop, or delete `targets`. */
  datatype Plan = Stop(halt: Halt) | Delete(targets: seq<Folder>)

  /**
   * `main` up to the deletion loop. The path the user may type in is discarded by the script,
   * so the scan always runs on the default root; `confirm` is the answer to the final question.
   */
  function Decide(rev: Revision, env: Env, rootPath: string, root: Option<Node>, confirm: bool): (p: Plan)
    ensures p.Delete? ==> confirm && p.targets != [] && Scan(env, rootPath, root).Ok?
                          && p.targets == Unwanted(Scan(env, rootPath, root).value)
                          && 0 < Size(root.value)
    ensures Scan(env, rootPath, root).Ok? && Unwanted(Scan(env, rootPath, root).value) == [] ==> p == Stop(NothingUnwanted)
    ensures !confirm ==> p.Stop?
    ensures Scan(env, rootPath, root).Ok? && Unwanted(Scan(env, rootPath, root).value) != [] && 0 < Size(root.value) ==>
              p == (if confirm then Delete(Unwanted(Scan(env, rootPath, root).value)) else Stop(Declined))
    ensures Scan(env, rootPath, root).Ok? && Unwanted(Scan(env, rootPath, root).value) != [] && Size(root.value) == 0 ==>
              p == Stop(Crashed(ZeroDivision))
    ensures Scan(env, rootPath, root).Err? ==>
              p == (if rev == MainScript && root.Some? && !root.value.Dir? then Stop(Crashed(ListFailed))
                    else Stop(Crashed(ScanFailed(Scan(env, rootPath, root).error))))
  {
    if rev == MainScript && Validity.IsValidWSSPathMain(root).Err? then Stop(Crashed(ListFailed))
    else
      match Scan(env, rootPath, root)
      case Err(err) => Stop(Crashed(ScanFailed(err)))
      case Ok(folders) =>
        var unwanted := Unwanted(folders);
        if unwanted == [] then Stop(NothingUnwanted)
        else if Size(root.value) == 0 then Stop(Crashed(ZeroDivision))
        else if !confirm then Stop(Declined)
        else Delete(unwanted)
  }

  /** Every entry the scan opened holds a non-empty `workspace.json` (a JSON object is at least `{}`). */
  predicate ManifestsNonEmpty(cs: seq<Entry>)
  {
    forall i :: 0 <= i < |cs| && Readable(cs[i]) ==> Lookup(cs[i].node.children, ManifestName).value.size > 0
  }

  /** A directory is at least as large as its manifest file. */
  lemma ManifestSizeBound(n: Node)
    requires n.Dir? && Lookup(n.children, ManifestName).Some? && Lookup(n.children, ManifestName).value.File?
    ensures Lookup(n.children, ManifestName).value.size <= Size(n)
  {
    var m := Lookup(n.children, ManifestName).value;
    var i :| 0 <= i < |n.children| && n.children[i] == Entry(ManifestName, m);
    ChildSizeBound(n.children, i);
  }

  /** An unwanted record comes from an entry holding its manifest, so the entries' total is positive. */
  lemma UnwantedImpliesPositiveTotal(env: Env, rootPath: string, cs: seq<Entry>)
    requires ScanEntries(env, rootPath, cs).Ok? && Unwanted(ScanEntries(env, rootPath, cs).value) != []
    requires ManifestsNonEmpty(cs)
    ensures ChildrenSize(cs) > 0
  {
    var folders := ScanEntries(env, rootPath, cs).value;
    var f := Unwanted(folders)[0];
    assert f in folders;
    var j :| 0 <= j < |folders| && folders[j] == f;
    ScanRecords(env, rootPath, cs);
    var k := Indices(cs, Keyed)[j];
    assert Readable(cs[k]);
    ManifestSizeBound(cs[k].node);
    ChildSizeBound(cs, k);
  }

  /**
   * The division by zero is only reached when some manifest file is empty; a JSON object takes
   * at least two bytes, so on a real storage root the percentage is always computed.
   */
  lemma ZeroDivisionNeedsEmptyManifest(rev: Revision, env: Env, rootPath: string, root: Option<Node>, confirm: bool)
    requires root.Some? && root.value.Dir? && ManifestsNonEmpty(root.value.children)
    ensures Decide(rev, env, rootPath, root, confirm) != Stop(Crashed(ZeroDivision))
  {
    var cs := root.value.children;
    if ScanEntries(env, rootPath, cs).Ok? && Unwanted(ScanEntries(env, rootPath, cs).value) != [] {
      UnwantedImpliesPositiveTotal(env, rootPath, cs);
    }
  }
}
