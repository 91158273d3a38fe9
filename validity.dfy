/**
 * `isValidWSSPath`: is a path a plausible workspace-storage root? The two revisions of the
 * script agree except on an existing path that is not a directory.
 */
module Validity {
  import opened Seqs
  import opened FileSystem
  import Scanner

  /** `(entry / "workspace.json").exists()`: true for any kind of node of that name inside a directory entry. */
  predicate HasManifest(n: Node)
  {
    n.Dir? && Lookup(n.children, ManifestName).Some?
  }

  /**
   * workspaceStorage_cleaner.py: false for a missing path or a non-directory; otherwise every
   * entry, files included, must contain `workspace.json`. An empty directory is valid.
   */
  function IsValidWSSPath(root: Option<Node>): (valid: bool)
    ensures valid <==> root.Some? && root.value.Dir?
                       && forall i :: 0 <= i < |root.value.children| ==> HasManifest(root.value.children[i].node)
    ensures root.Some? && root.value.Dir? && root.value.children == [] ==> valid
  {
    match root
    case None => false
    case Some(Dir(_, cs)) => forall i :: 0 <= i < |cs| ==> HasManifest(cs[i].node)
    case Some(_) => false
  }

  /** `os.listdir` on an existing path that is not a directory raises. */
  datatype ListError = NotADirectory

  /**
   * main.py: false only for a missing path; an existing non-directory makes `os.listdir` raise.
   * Wherever it returns, it returns what the other revision does.
   */
  function IsValidWSSPathMain(root: Option<Node>): (r: Result<bool, ListError>)
    ensures r.Err? <==> root.Some? && !root.value.Dir?
    ensures r.Ok? ==> r.value == IsValidWSSPath(root)
    ensures root.None? ==> r == Ok(false)
  {
    match root
    case None => Ok(false)
    case Some(Dir(_, cs)) => Ok(forall i :: 0 <= i < |cs| ==> HasManifest(cs[i].node))
    case Some(_) => Err(NotADirectory)
  }

  /** Any root that the scan gets through is a valid root: every entry's manifest was opened. */
  lemma ScannableRootIsValid(env: Scanner.Env, rootPath: string, root: Option<Node>)
    requires Scanner.Scan(env, rootPath, root).Ok?
    ensures IsValidWSSPath(root)
  {
    var cs := root.value.children;
    Scanner.ScanOkIff(env, rootPath, cs);
    forall i | 0 <= i < |cs| ensures HasManifest(cs[i].node) {
      assert Scanner.Readable(cs[i]);
    }
  }

  /**
   * The converse does not hold: validity only asks that `workspace.json` exist, so a root whose
   * manifest is a directory passes the check and still makes the scan raise.
   */
  lemma ValidRootCanFailScan(env: Scanner.Env)
    ensures var root := Some(Dir(0, [Entry("a", Dir(0, [Entry(ManifestName, Dir(0, []))]))]));
      IsValidWSSPath(root) && Scanner.Scan(env, "/ws", root) == Err(Scanner.ManifestUnreadable("/ws/a"))
  {
    var entry := Entry("a", Dir(0, [Entry(ManifestName, Dir(0, []))]));
    assert Scanner.ReadManifest(entry.node) == Scanner.Unreadable;
    assert JoinPath("/ws", "a") == "/ws/a";
    assert [entry][..0] == [];
    assert Scanner.Classify(env, "/ws", entry) == Err(Scanner.ManifestUnreadable("/ws/a"));
    assert Scanner.ScanEntries(env, "/ws", [entry][..0]) == Ok([]);
    assert Scanner.ScanEntries(env, "/ws", [entry]) == Err(Scanner.ManifestUnreadable("/ws/a"));
  }
}
