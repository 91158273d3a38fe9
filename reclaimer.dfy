/**
 * The deletion loop of `main` and the run around it. The storage root is an object whose
 * entry list `shutil.rmtree` shrinks one entry at a time; nothing is rolled back when the loop
 * stops early.
 */
module Reclaimer {
  import opened Seqs
  import opened FileSystem
  import opened Scanner
  import opened Planner
  import Validity

  /** How the `rmtree` that goes wrong ends: an exception, or a `KeyboardInterrupt`. */
  datatype FaultKind = IoError | Interrupt

  /**
   * The `rmtree` of the `at`-th unwanted entry (0-based) raises; `residue` is what is left of that
   * entry when it does (`None`: nothing is left), since `rmtree` may have removed part of it.
   */
  datatype Fault = Fault(at: nat, kind: FaultKind, residue: Option<Node>)

  /** How the loop ends; `index` is the 0-based position of the entry whose removal raised. */
  datatype Outcome = Completed | Failed(index: nat) | Interrupted(index: nat)

  /**
   * What the loop reports: main.py's one-off "Removing n folders." line, the per-entry
   * "(i/n)" line printed before each `rmtree`, and the final success message.
   */
  datatype Progress = Announced(count: nat) | Removing(ordinal: nat, total: nat, name: string) | Cleared

  datatype RunResult = Halted(halt: Halt) | Reclaimed(outcome: Outcome)

  function PathOf(rootPath: string, e: Entry): string
  {
    JoinPath(rootPath, e.name)
  }

  /** No two different entries share a name (weaker than `DistinctNames`, and kept by every removal). */
  ghost predicate UniqueNames(cs: seq<Entry>)
  {
    forall a, b :: a in cs && b in cs && a.name == b.name ==> a == b
  }

  lemma DistinctNamesUnique(cs: seq<Entry>)
    requires DistinctNames(cs)
    ensures UniqueNames(cs)
  {
    forall a, b | a in cs && b in cs && a.name == b.name ensures a == b {
      var i :| 0 <= i < |cs| && cs[i] == a;
      var j :| 0 <= j < |cs| && cs[j] == b;
      assert !(i < j) && !(j < i);
    }
  }

  /** The node that path `p` names among the root's entries, if any. */
  function NodeAt(cs: seq<Entry>, rootPath: string, p: string): Option<Node>
  {
    if cs == [] then None
    else if PathOf(rootPath, cs[0]) == p then Some(cs[0].node)
    else NodeAt(cs[1..], rootPath, p)
  }

  /** `rmtree`'s target is found exactly when some entry has that path, and it is that entry's node. */
  lemma {:induction false} NodeAtFinds(cs: seq<Entry>, rootPath: string, p: string)
    ensures NodeAt(cs, rootPath, p).None? <==> forall e :: e in cs ==> PathOf(rootPath, e) != p
    ensures NodeAt(cs, rootPath, p).Some? ==>
              exists e :: e in cs && PathOf(rootPath, e) == p && e.node == NodeAt(cs, rootPath, p).value
  {
    if cs != [] && PathOf(rootPath, cs[0]) != p {
      NodeAtFinds(cs[1..], rootPath, p);
      assert forall e :: e in cs ==> e == cs[0] || e in cs[1..];
    }
  }

  /** The entries after a complete `rmtree(p)`. */
  function Without(cs: seq<Entry>, rootPath: string, p: string): seq<Entry>
  {
    if cs == [] then []
    else
      var last := cs[|cs| - 1];
      Without(cs[..|cs| - 1], rootPath, p) + (if PathOf(rootPath, last) != p then [last] else [])
  }

  /** A complete `rmtree(p)` removes the entry at `p` and keeps every other entry. */
  lemma {:induction false} WithoutMembers(cs: seq<Entry>, rootPath: string, p: string)
    ensures forall e :: e in Without(cs, rootPath, p) <==> e in cs && PathOf(rootPath, e) != p
  {
    if cs != [] {
      var init, last := cs[..|cs| - 1], cs[|cs| - 1];
      assert cs == init + [last];
      WithoutMembers(init, rootPath, p);
    }
  }

  /** The entries after an `rmtree(p)` that raised: the entry at `p` is replaced by what is left of it. */
  function Damage(cs: seq<Entry>, rootPath: string, p: string, residue: Option<Node>): seq<Entry>
  {
    if cs == [] then []
    else
      var last := cs[|cs| - 1];
      var rest := Damage(cs[..|cs| - 1], rootPath, p, residue);
      if PathOf(rootPath, last) != p then rest + [last]
      else if residue.Some? then rest + [Entry(last.name, residue.value)]
      else rest
  }

  /** An `rmtree(p)` that raises keeps every other entry and leaves at most what remains of its target. */
  lemma {:induction false} DamageMembers(cs: seq<Entry>, rootPath: string, p: string, residue: Option<Node>)
    ensures forall e :: e in cs && PathOf(rootPath, e) != p ==> e in Damage(cs, rootPath, p, residue)
    ensures forall e :: e in Damage(cs, rootPath, p, residue) ==>
              (e in cs && PathOf(rootPath, e) != p) || (PathOf(rootPath, e) == p && residue == Some(e.node))
  {
    if cs != [] {
      var init, last := cs[..|cs| - 1], cs[|cs| - 1];
      assert cs == init + [last];
      DamageMembers(init, rootPath, p, residue);
    }
  }

  /**
   * The loop from the `i`-th unwanted entry on: progress is reported, then `rmtree` runs; the first
   * fault, or a target that is not a directory any more, stops it with the state reached so far.
   */
  function Process(cs: seq<Entry>, rootPath: string, targets: seq<Folder>, fault: Option<Fault>, i: nat): (Outcome, seq<Entry>)
    requires i <= |targets|
    decreases |targets| - i
  {
    if i == |targets| then (Completed, cs)
    else
      var p := targets[i].path;
      if fault.Some? && fault.value.at == i then
        (if fault.value.kind == IoError then Failed(i) else Interrupted(i), Damage(cs, rootPath, p, fault.value.residue))
      else if NodeAt(cs, rootPath, p).Some? && NodeAt(cs, rootPath, p).value.Dir? then
        Process(Without(cs, rootPath, p), rootPath, targets, fault, i + 1)
      else (Failed(i), cs)
  }

  /** The position the loop stopped at: the failing entry, or the length of the list. */
  function StopIndex(o: Outcome, n: nat): nat
  {
    match o
    case Completed => n
    case Failed(k) => k
    case Interrupted(k) => k
  }

  /** Where the loop stops at once: at the end of the list, on the fault, or on a target that is not a directory. */
  predicate HaltsAt(cs: seq<Entry>, rootPath: string, targets: seq<Folder>, fault: Option<Fault>, i: nat)
    requires i <= |targets|
  {
    i == |targets| || (fault.Some? && fault.value.at == i)
    || !(NodeAt(cs, rootPath, targets[i].path).Some? && NodeAt(cs, rootPath, targets[i].path).value.Dir?)
  }

  lemma ProcessHalts(cs: seq<Entry>, rootPath: string, targets: seq<Folder>, fault: Option<Fault>, i: nat)
    requires i <= |targets| && HaltsAt(cs, rootPath, targets, fault, i)
    ensures StopIndex(Process(cs, rootPath, targets, fault, i).0, |targets|) == i
    ensures i < |targets| ==> !Process(cs, rootPath, targets, fault, i).0.Completed?
    ensures Process(cs, rootPath, targets, fault, i).0.Interrupted? ==>
              fault.Some? && fault.value.at == i && fault.value.kind == Interrupt
  {
  }

  lemma ProcessHaltsWith(cs: seq<Entry>, rootPath: string, targets: seq<Folder>, fault: Option<Fault>, i: nat)
    requires i <= |targets| && HaltsAt(cs, rootPath, targets, fault, i)
    ensures Process(cs, rootPath, targets, fault, i).1
            == if i < |targets| && fault.Some? && fault.value.at == i
               then Damage(cs, rootPath, targets[i].path, fault.value.residue) else cs
  {
  }

  lemma ProcessAdvances(cs: seq<Entry>, rootPath: string, targets: seq<Folder>, fault: Option<Fault>, i: nat)
    requires i <= |targets| && !HaltsAt(cs, rootPath, targets, fault, i)
    ensures Process(cs, rootPath, targets, fault, i) == Process(Without(cs, rootPath, targets[i].path), rootPath, targets, fault, i + 1)
  {
  }

  function Paths(ts: seq<Folder>): set<string>
  {
    set f | f in ts :: f.path
  }

  predicate DistinctPaths(ts: seq<Folder>)
  {
    forall j, k :: 0 <= j < k < |ts| ==> ts[j].path != ts[k].path
  }

  /** Whether one of the targets at positions `lo` to `hi - 1` has path `x`. */
  predicate TargetedIn(ts: seq<Folder>, lo: nat, hi: nat, x: string)
    decreases hi - lo
  {
    lo < hi <= |ts| && (ts[lo].path == x || TargetedIn(ts, lo + 1, hi, x))
  }

  /** `TargetedIn` over a stretch of the list is membership in the paths of that stretch. */
  lemma {:induction false} TargetedInPaths(ts: seq<Folder>, lo: nat, hi: nat, x: string)
    requires lo <= hi <= |ts|
    ensures TargetedIn(ts, lo, hi, x) <==> x in Paths(ts[lo..hi])
    decreases hi - lo
  {
    if lo < hi {
      TargetedInPaths(ts, lo + 1, hi, x);
      assert ts[lo..hi] == [ts[lo]] + ts[lo + 1..hi];
    } else {
      assert ts[lo..hi] == [];
    }
  }

  /** The loop stops at or after where it starts; it stops early only on an entry of the list, and only the fault interrupts it. */
  lemma {:induction false} ProcessStops(cs: seq<Entry>, rootPath: string, targets: seq<Folder>, fault: Option<Fault>, i: nat)
    requires i <= |targets|
    ensures var o := Process(cs, rootPath, targets, fault, i).0;
      && i <= StopIndex(o, |targets|) <= |targets|
      && (o.Completed? || StopIndex(o, |targets|) < |targets|)
      && (o.Interrupted? ==> fault.Some? && fault.value.at == o.index && fault.value.kind == Interrupt)
    decreases |targets| - i, 1
  {
    if HaltsAt(cs, rootPath, targets, fault, i) {
      ProcessHalts(cs, rootPath, targets, fault, i);
    } else {
      ProcessStopsStep(cs, rootPath, targets, fault, i);
    }
  }

  /** `ProcessStops` when the `i`-th removal goes through. */
  lemma {:induction false} ProcessStopsStep(cs: seq<Entry>, rootPath: string, targets: seq<Folder>, fault: Option<Fault>, i: nat)
    requires i <= |targets| && !HaltsAt(cs, rootPath, targets, fault, i)
    ensures var o := Process(cs, rootPath, targets, fault, i).0;
      && i <= StopIndex(o, |targets|) <= |targets|
      && (o.Completed? || StopIndex(o, |targets|) < |targets|)
      && (o.Interrupted? ==> fault.Some? && fault.value.at == o.index && fault.value.kind == Interrupt)
    decreases |targets| - i, 0
  {
    var cs1 := Without(cs, rootPath, targets[i].path);
    assert Process(cs, rootPath, targets, fault, i) == Process(cs1, rootPath, targets, fault, i + 1) by {
      ProcessAdvances(cs, rootPath, targets, fault, i);
    }
    ProcessStops(cs1, rootPath, targets, fault, i + 1);
  }

  /**
   * What the loop left in `r` that was not in `cs` is the residue at the path it stopped on, and
   * only when it stopped on the fault.
   */
  ghost predicate OnlyResidueNew(r: (Outcome, seq<Entry>), cs: seq<Entry>, rootPath: string, targets: seq<Folder>, fault: Option<Fault>)
  {
    var k := StopIndex(r.0, |targets|);
    forall e :: e in r.1 ==>
      e in cs || (!r.0.Completed? && k < |targets| && PathOf(rootPath, e) == targets[k].path
                  && fault.Some? && fault.value.at == k && fault.value.residue == Some(e.node))
  }

  /** The loop that ended in `r` stopped at or after `lo`, and no entry at a path it removed from `lo` on is left. */
  ghost predicate NoneLeftFrom(r: (Outcome, seq<Entry>), rootPath: string, targets: seq<Folder>, lo: nat)
  {
    var k := StopIndex(r.0, |targets|);
    lo <= k <= |targets| && forall e :: e in r.1 ==> !TargetedIn(targets, lo, k, PathOf(rootPath, e))
  }

  /**
   * The loop that ended in `r` started at least as many removals as `lo`, and every entry of `cs`
   * whose path is not among those it started from `lo` on is still there.
   */
  ghost predicate KeptFrom(r: (Outcome, seq<Entry>), cs: seq<Entry>, rootPath: string, targets: seq<Folder>, lo: nat)
  {
    var reached := Attempted(r.0, |targets|);
    lo <= reached <= |targets| && forall e :: e in cs && !TargetedIn(targets, lo, reached, PathOf(rootPath, e)) ==> e in r.1
  }

  /** Nothing appears that was not there before, except what `rmtree` left of the entry whose removal raised. */
  lemma {:induction false} ProcessAddsOnlyResidue(cs: seq<Entry>, rootPath: string, targets: seq<Folder>, fault: Option<Fault>, i: nat)
    requires i <= |targets|
    ensures OnlyResidueNew(Process(cs, rootPath, targets, fault, i), cs, rootPath, targets, fault)
    decreases |targets| - i, 1
  {
    if HaltsAt(cs, rootPath, targets, fault, i) {
      ProcessHalts(cs, rootPath, targets, fault, i);
      ProcessHaltsWith(cs, rootPath, targets, fault, i);
      if i < |targets| && fault.Some? && fault.value.at == i {
        DamageMembers(cs, rootPath, targets[i].path, fault.value.residue);
      }
    } else {
      ProcessAddsOnlyResidueStep(cs, rootPath, targets, fault, i);
    }
  }

  /** `ProcessAddsOnlyResidue` when the `i`-th removal goes through. */
  lemma {:induction false} ProcessAddsOnlyResidueStep(cs: seq<Entry>, rootPath: string, targets: seq<Folder>, fault: Option<Fault>, i: nat)
    requires i <= |targets| && !HaltsAt(cs, rootPath, targets, fault, i)
    ensures OnlyResidueNew(Process(cs, rootPath, targets, fault, i), cs, rootPath, targets, fault)
    decreases |targets| - i, 0
  {
    var cs1 := Without(cs, rootPath, targets[i].path);
    ProcessAdvances(cs, rootPath, targets, fault, i);
    ProcessAddsOnlyResidue(cs1, rootPath, targets, fault, i + 1);
    ResidueStaysResidue(Process(cs, rootPath, targets, fault, i), Process(cs1, rootPath, targets, fault, i + 1),
                        cs, rootPath, targets, fault, i);
  }

  /**
   * One removal step seen from the end: `r0` is where the loop from the `i`-th entry ends, `r`
   * where it ends once that entry's complete removal has left `Without(cs, …)`. What is new in
   * `r` with respect to the entries after the removal is new with respect to `cs`.
   */
  lemma ResidueStaysResidue(r0: (Outcome, seq<Entry>), r: (Outcome, seq<Entry>), cs: seq<Entry>, rootPath: string,
                            targets: seq<Folder>, fault: Option<Fault>, i: nat)
    requires r0 == r && i < |targets|
    requires OnlyResidueNew(r, Without(cs, rootPath, targets[i].path), rootPath, targets, fault)
    ensures OnlyResidueNew(r0, cs, rootPath, targets, fault)
  {
    WithoutMembers(cs, rootPath, targets[i].path);
  }

  /**
   * One removal step seen from the end: if none of the later paths is left in `r`, and what is new
   * in `r` with respect to the entries after the `i`-th removal is residue, then none of the paths
   * from the `i`-th on is left either.
   */
  lemma RemovedStaysRemoved(r0: (Outcome, seq<Entry>), r: (Outcome, seq<Entry>), cs: seq<Entry>, rootPath: string,
                            targets: seq<Folder>, fault: Option<Fault>, i: nat)
    requires r0 == r && i < |targets| && DistinctPaths(targets)
    requires NoneLeftFrom(r, rootPath, targets, i + 1)
    requires OnlyResidueNew(r, Without(cs, rootPath, targets[i].path), rootPath, targets, fault)
    ensures NoneLeftFrom(r0, rootPath, targets, i)
  {
    var k := StopIndex(r.0, |targets|);
    var cs1 := Without(cs, rootPath, targets[i].path);
    WithoutMembers(cs, rootPath, targets[i].path);
    forall e | e in r.1
      ensures PathOf(rootPath, e) != targets[i].path
    {
      if e !in cs1 {
        assert targets[k].path != targets[i].path;
      }
    }
  }

  /** No entry whose path the loop removed before it stopped is left. */
  lemma {:induction false} ProcessRemovesTargets(cs: seq<Entry>, rootPath: string, targets: seq<Folder>, fault: Option<Fault>, i: nat)
    requires i <= |targets| && DistinctPaths(targets)
    ensures NoneLeftFrom(Process(cs, rootPath, targets, fault, i), rootPath, targets, i)
    decreases |targets| - i, 1
  {
    if HaltsAt(cs, rootPath, targets, fault, i) {
      ProcessHalts(cs, rootPath, targets, fault, i);
    } else {
      ProcessRemovesTargetsStep(cs, rootPath, targets, fault, i);
    }
  }

  /** `ProcessRemovesTargets` when the `i`-th removal goes through. */
  lemma {:induction false} ProcessRemovesTargetsStep(cs: seq<Entry>, rootPath: string, targets: seq<Folder>, fault: Option<Fault>, i: nat)
    requires i <= |targets| && DistinctPaths(targets) && !HaltsAt(cs, rootPath, targets, fault, i)
    ensures NoneLeftFrom(Process(cs, rootPath, targets, fault, i), rootPath, targets, i)
    decreases |targets| - i, 0
  {
    var cs1 := Without(cs, rootPath, targets[i].path);
    ProcessAdvances(cs, rootPath, targets, fault, i);
    ProcessRemovesTargets(cs1, rootPath, targets, fault, i + 1);
    ProcessAddsOnlyResidue(cs1, rootPath, targets, fault, i + 1);
    RemovedStaysRemoved(Process(cs, rootPath, targets, fault, i), Process(cs1, rootPath, targets, fault, i + 1),
                        cs, rootPath, targets, fault, i);
  }

  /**
   * Nothing appears that was not there before, except what `rmtree` left of the entry whose
   * removal raised; and no entry whose path was removed before the stop is left.
   */
  lemma ProcessRemoves(cs: seq<Entry>, rootPath: string, targets: seq<Folder>, fault: Option<Fault>, i: nat)
    requires i <= |targets| && DistinctPaths(targets)
    ensures var o, after := Process(cs, rootPath, targets, fault, i).0, Process(cs, rootPath, targets, fault, i).1;
      var k := StopIndex(o, |targets|);
      && i <= k <= |targets|
      && (forall e :: e in after ==> !TargetedIn(targets, i, k, PathOf(rootPath, e)))
      && (forall e :: e in after ==>
            e in cs || (!o.Completed? && k < |targets| && PathOf(rootPath, e) == targets[k].path
                        && fault.Some? && fault.value.at == k && fault.value.residue == Some(e.node)))
  {
    ProcessRemovesTargets(cs, rootPath, targets, fault, i);
    ProcessAddsOnlyResidue(cs, rootPath, targets, fault, i);
  }

  /**
   * One removal step seen from the end: what the rest of the loop keeps of the entries after the
   * `i`-th removal it keeps of `cs`, apart from the `i`-th path.
   */
  lemma KeptStaysKept(r0: (Outcome, seq<Entry>), r: (Outcome, seq<Entry>), cs: seq<Entry>, rootPath: string,
                      targets: seq<Folder>, i: nat)
    requires r0 == r && i < |targets|
    requires KeptFrom(r, Without(cs, rootPath, targets[i].path), rootPath, targets, i + 1)
    ensures KeptFrom(r0, cs, rootPath, targets, i)
  {
    WithoutMembers(cs, rootPath, targets[i].path);
  }

  /** Every entry the loop did not reach, up to and including the one it stopped on, is untouched. */
  lemma {:induction false} ProcessKeeps(cs: seq<Entry>, rootPath: string, targets: seq<Folder>, fault: Option<Fault>, i: nat)
    requires i <= |targets|
    ensures KeptFrom(Process(cs, rootPath, targets, fault, i), cs, rootPath, targets, i)
    decreases |targets| - i, 1
  {
    if HaltsAt(cs, rootPath, targets, fault, i) {
      ProcessHalts(cs, rootPath, targets, fault, i);
      ProcessHaltsWith(cs, rootPath, targets, fault, i);
      if i < |targets| && fault.Some? && fault.value.at == i {
        DamageMembers(cs, rootPath, targets[i].path, fault.value.residue);
      }
    } else {
      ProcessKeepsStep(cs, rootPath, targets, fault, i);
    }
  }

  /** `ProcessKeeps` when the `i`-th removal goes through. */
  lemma {:induction false} ProcessKeepsStep(cs: seq<Entry>, rootPath: string, targets: seq<Folder>, fault: Option<Fault>, i: nat)
    requires i <= |targets| && !HaltsAt(cs, rootPath, targets, fault, i)
    ensures KeptFrom(Process(cs, rootPath, targets, fault, i), cs, rootPath, targets, i)
    decreases |targets| - i, 0
  {
    var cs1 := Without(cs, rootPath, targets[i].path);
    ProcessAdvances(cs, rootPath, targets, fault, i);
    ProcessKeeps(cs1, rootPath, targets, fault, i + 1);
    KeptStaysKept(Process(cs, rootPath, targets, fault, i), Process(cs1, rootPath, targets, fault, i + 1),
                  cs, rootPath, targets, i);
  }

  /**
   * An uninterrupted loop over targets that all name directories of the root, each once, removes
   * every one of them.
   */
  lemma {:induction false} ProcessCompletes(cs: seq<Entry>, rootPath: string, targets: seq<Folder>, fault: Option<Fault>, i: nat)
    requires i <= |targets| && DistinctPaths(targets) && UniqueNames(cs)
    requires fault.None? || fault.value.at >= |targets| || fault.value.at < i
    requires forall j :: i <= j < |targets| ==> exists e :: e in cs && PathOf(rootPath, e) == targets[j].path && e.node.Dir?
    ensures Process(cs, rootPath, targets, fault, i).0 == Completed
    decreases |targets| - i
  {
    if i == |targets| {
      ProcessHalts(cs, rootPath, targets, fault, i);
    } else {
      var p := targets[i].path;
      NextTargetRemovable(cs, rootPath, targets, i);
      var cs1 := Without(cs, rootPath, p);
      ProcessAdvances(cs, rootPath, targets, fault, i);
      RestStillPresent(cs, rootPath, targets, i);
      ProcessCompletes(cs1, rootPath, targets, fault, i + 1);
    }
  }

  /** With distinct names, the `i`-th target is found as a directory. */
  lemma NextTargetRemovable(cs: seq<Entry>, rootPath: string, targets: seq<Folder>, i: nat)
    requires i < |targets| && UniqueNames(cs)
    requires exists e :: e in cs && PathOf(rootPath, e) == targets[i].path && e.node.Dir?
    ensures NodeAt(cs, rootPath, targets[i].path).Some? && NodeAt(cs, rootPath, targets[i].path).value.Dir?
  {
    var p := targets[i].path;
    var here :| here in cs && PathOf(rootPath, here) == p && here.node.Dir?;
    NodeAtFinds(cs, rootPath, p);
    var found :| found in cs && PathOf(rootPath, found) == p && found.node == NodeAt(cs, rootPath, p).value;
    JoinPathInjective(rootPath, here.name, found.name);
  }

  /** A complete `rmtree` keeps names unique. */
  lemma WithoutKeepsUnique(cs: seq<Entry>, rootPath: string, p: string)
    requires UniqueNames(cs)
    ensures UniqueNames(Without(cs, rootPath, p))
  {
    var cs1 := Without(cs, rootPath, p);
    WithoutMembers(cs, rootPath, p);
    forall a, b | a in cs1 && b in cs1 && a.name == b.name ensures a == b {
      assert a in cs && b in cs;
    }
  }

  /** A directory at a path other than `p` is still there after `rmtree(p)`. */
  lemma WithoutKeepsDirectory(cs: seq<Entry>, rootPath: string, p: string, q: string)
    requires q != p && exists e :: e in cs && PathOf(rootPath, e) == q && e.node.Dir?
    ensures exists e :: e in Without(cs, rootPath, p) && PathOf(rootPath, e) == q && e.node.Dir?
  {
    var e :| e in cs && PathOf(rootPath, e) == q && e.node.Dir?;
    WithoutMembers(cs, rootPath, p);
    assert e in Without(cs, rootPath, p);
  }

  /** Removing the `i`-th target keeps names unique and keeps every later target present. */
  lemma RestStillPresent(cs: seq<Entry>, rootPath: string, targets: seq<Folder>, i: nat)
    requires i < |targets| && DistinctPaths(targets) && UniqueNames(cs)
    requires forall j :: i <= j < |targets| ==> exists e :: e in cs && PathOf(rootPath, e) == targets[j].path && e.node.Dir?
    ensures UniqueNames(Without(cs, rootPath, targets[i].path))
    ensures forall j :: i + 1 <= j < |targets| ==>
              exists e :: e in Without(cs, rootPath, targets[i].path) && PathOf(rootPath, e) == targets[j].path && e.node.Dir?
  {
    WithoutKeepsUnique(cs, rootPath, targets[i].path);
    forall j | i + 1 <= j < |targets| {
      WithoutKeepsDirectory(cs, rootPath, targets[i].path, targets[j].path);
    }
  }

  /** A loop that completes has removed exactly the entries named by the list, and changed no other. */
  lemma CompletedRemovesExactly(cs: seq<Entry>, rootPath: string, targets: seq<Folder>, fault: Option<Fault>)
    requires DistinctPaths(targets) && Process(cs, rootPath, targets, fault, 0).0 == Completed
    ensures forall e :: e in Process(cs, rootPath, targets, fault, 0).1 <==> e in cs && PathOf(rootPath, e) !in Paths(targets)
  {
    ProcessRemoves(cs, rootPath, targets, fault, 0);
    ProcessKeeps(cs, rootPath, targets, fault, 0);
    assert targets[0..|targets|] == targets;
    forall e {
      TargetedInPaths(targets, 0, |targets|, PathOf(rootPath, e));
    }
  }

  /**
   * A loop stopped by the failure of the `k`-th removal leaves the earlier entries removed, the
   * entries it never reached untouched, and no rollback: the outcome names `k`.
   */
  lemma StoppedKeepsPartialState(cs: seq<Entry>, rootPath: string, targets: seq<Folder>, fault: Option<Fault>)
    requires DistinctPaths(targets) && !Process(cs, rootPath, targets, fault, 0).0.Completed?
    ensures var o, after := Process(cs, rootPath, targets, fault, 0).0, Process(cs, rootPath, targets, fault, 0).1;
      var k := o.index;
      && k < |targets|
      && (forall e :: e in after ==> !TargetedIn(targets, 0, k, PathOf(rootPath, e)))
      && (forall e :: e in cs && !TargetedIn(targets, 0, k + 1, PathOf(rootPath, e)) ==> e in after)
  {
    ProcessStops(cs, rootPath, targets, fault, 0);
    ProcessRemoves(cs, rootPath, targets, fault, 0);
    ProcessKeeps(cs, rootPath, targets, fault, 0);
  }

  /** The unwanted records of a scan have pairwise distinct paths. */
  lemma UnwantedPathsDistinct(env: Env, rootPath: string, cs: seq<Entry>)
    requires ScanEntries(env, rootPath, cs).Ok? && DistinctNames(cs)
    ensures DistinctPaths(Unwanted(ScanEntries(env, rootPath, cs).value))
  {
    var folders := ScanEntries(env, rootPath, cs).value;
    var targets, ix := Unwanted(folders), Indices(folders, Eligible);
    ScanPathsUnique(env, rootPath, cs);
    forall j, k | 0 <= j < k < |targets| ensures targets[j].path != targets[k].path {
      assert targets[j] == folders[ix[j]] && targets[k] == folders[ix[k]];
    }
  }

  /** Each unwanted record of a scan is the path of a directory entry of the root. */
  lemma UnwantedAreDirectories(env: Env, rootPath: string, cs: seq<Entry>)
    requires ScanEntries(env, rootPath, cs).Ok?
    ensures var targets := Unwanted(ScanEntries(env, rootPath, cs).value);
      forall j :: 0 <= j < |targets| ==> exists e :: e in cs && PathOf(rootPath, e) == targets[j].path && e.node.Dir?
  {
    var folders := ScanEntries(env, rootPath, cs).value;
    var targets := Unwanted(folders);
    var ix, kx := Indices(folders, Eligible), Indices(cs, Keyed);
    ScanRecords(env, rootPath, cs);
    forall j | 0 <= j < |targets|
      ensures exists e :: e in cs && PathOf(rootPath, e) == targets[j].path && e.node.Dir?
    {
      var e := cs[kx[ix[j]]];
      assert targets[j] == folders[ix[j]] == Record(env, rootPath, e);
      assert e in cs;
    }
  }

  /**
   * The list `main` hands to the loop names directories of the root, each once; so with no
   * exception and no interrupt the loop completes and removes exactly the unwanted entries.
   */
  lemma DeletePlanCompletes(rev: Revision, env: Env, rootPath: string, root: Option<Node>, confirm: bool)
    requires Decide(rev, env, rootPath, root, confirm).Delete? && DistinctNames(root.value.children)
    ensures var targets, cs := Decide(rev, env, rootPath, root, confirm).targets, root.value.children;
      && Process(cs, rootPath, targets, None, 0).0 == Completed
      && forall e :: e in Process(cs, rootPath, targets, None, 0).1 <==> e in cs && PathOf(rootPath, e) !in Paths(targets)
  {
    var cs := root.value.children;
    var targets := Decide(rev, env, rootPath, root, confirm).targets;
    assert Scan(env, rootPath, root) == ScanEntries(env, rootPath, cs);
    assert targets == Unwanted(ScanEntries(env, rootPath, cs).value);
    UnwantedPathsDistinct(env, rootPath, cs);
    UnwantedAreDirectories(env, rootPath, cs);
    DistinctNamesUnique(cs);
    ProcessCompletes(cs, rootPath, targets, None, 0);
    CompletedRemovesExactly(cs, rootPath, targets, None);
  }

  /** The "(i/n)" lines for the first `m` entries. */
  function Removals(targets: seq<Folder>, m: nat): (r: seq<Progress>)
    requires m <= |targets|
    ensures |r| == m
    ensures forall j :: 0 <= j < m ==> r[j] == Removing(j + 1, |targets|, BaseName(targets[j].path))
  {
    if m == 0 then [] else Removals(targets, m - 1) + [Removing(m, |targets|, BaseName(targets[m - 1].path))]
  }

  /** How many `rmtree` calls were started: all of them, or up to and including the failing one. */
  function Attempted(o: Outcome, n: nat): nat
  {
    if o.Completed? || StopIndex(o, n) >= n then n else StopIndex(o, n) + 1
  }

  /**
   * Everything the loop reports for outcome `o`. main.py first announces the count; the success
   * message comes last and only when every entry was removed.
   */
  function Log(rev: Revision, targets: seq<Folder>, o: Outcome): (r: seq<Progress>)
    ensures Cleared in r <==> o.Completed?
    ensures |r| == Attempted(o, |targets|) + (if rev == MainScript then 1 else 0) + (if o.Completed? then 1 else 0)
    ensures rev == MainScript ==> r[0] == Announced(|targets|)
    ensures o.Completed? ==> r[|r| - 1] == Cleared
    ensures !o.Completed? && StopIndex(o, |targets|) < |targets| ==>
              r[|r| - 1] == Removing(StopIndex(o, |targets|) + 1, |targets|, BaseName(targets[StopIndex(o, |targets|)].path))
  {
    var removals := Removals(targets, Attempted(o, |targets|));
    assert Cleared !in removals;
    Header(rev, |targets|) + removals + Footer(o)
  }

  /** The line main.py prints before the loop. */
  function Header(rev: Revision, n: nat): seq<Progress>
  {
    if rev == MainScript then [Announced(n)] else []
  }

  /** The line printed after the loop, when it ran to the end. */
  function Footer(o: Outcome): seq<Progress>
  {
    if o.Completed? then [Cleared] else []
  }

  /** One "(i/n)" line per removal started, in the order of the targets, after the announcement if any. */
  lemma LogLines(rev: Revision, targets: seq<Folder>, o: Outcome)
    ensures forall j :: 0 <= j < Attempted(o, |targets|) ==>
      Log(rev, targets, o)[|Header(rev, |targets|)| + j] == Removing(j + 1, |targets|, BaseName(targets[j].path))
  {
    InMiddle(Header(rev, |targets|), Removals(targets, Attempted(o, |targets|)), Footer(o));
  }

  /** The elements of `b` keep their order in `a + b + c`, shifted by `|a|`. */
  lemma InMiddle<T>(a: seq<T>, b: seq<T>, c: seq<T>)
    ensures forall j :: 0 <= j < |b| ==> (a + b + c)[|a| + j] == b[j]
  {
    forall j | 0 <= j < |b|
      ensures (a + b + c)[|a| + j] == b[j]
    {
      assert (a + b)[|a| + j] == b[j];
    }
  }

  /** The workspace-storage root on disk: its path, and what that path names (`None`: nothing). */
  class Storage {
    const path: string
    var root: Option<Node>

    constructor (path: string, root: Option<Node>)
      ensures this.path == path && this.root == root
    {
      this.path := path;
      this.root := root;
    }

    /**
     * `shutil.rmtree(p)` for a path in the root, when it does not raise part-way: a directory
     * entry is removed whole; any other path makes it raise without changing anything.
     */
    method RemoveTree(p: string) returns (removed: bool)
      requires root.Some? && root.value.Dir?
      modifies this
      ensures root.Some? && root.value.Dir? && root.value.mtime == old(root.value.mtime)
      ensures var t := NodeAt(old(root.value.children), path, p);
        removed == (t.Some? && t.value.Dir?)
      ensures root.value.children == if removed then Without(old(root.value.children), path, p)
                                                   else old(root.value.children)
    {
      var cs := root.value.children;
      var t := NodeAt(cs, path, p);
      removed := t.Some? && t.value.Dir?;
      if removed {
        root := Some(Dir(root.value.mtime, Without(cs, path, p)));
      }
    }

    /**
     * One pass of the loop body: `rmtree` of the `i`-th unwanted entry, which raises when `fault`
     * names this pass or when the path is not a directory any more. `stop` is the outcome when it raised.
     */
    method RemoveNth(targets: seq<Folder>, fault: Option<Fault>, i: nat) returns (stop: Option<Outcome>)
      requires i < |targets| && root.Some? && root.value.Dir?
      modifies this
      ensures root.Some? && root.value.Dir? && root.value.mtime == old(root.value.mtime)
      ensures stop.None? ==>
                Process(old(root.value.children), path, targets, fault, i) == Process(root.value.children, path, targets, fault, i + 1)
      ensures stop.Some? ==>
                && Process(old(root.value.children), path, targets, fault, i) == (stop.value, root.value.children)
                && !stop.value.Completed? && Attempted(stop.value, |targets|) == i + 1
    {
      var p := targets[i].path;
      var cs := root.value.children;
      if fault.Some? && fault.value.at == i {
        root := Some(Dir(root.value.mtime, Damage(cs, path, p, fault.value.residue)));
        stop := Some(if fault.value.kind == IoError then Failed(i) else Interrupted(i));
        return;
      }
      var removed := RemoveTree(p);
      stop := if removed then None else Some(Failed(i));
    }

    /** The `for (i, folder) in enumerate(unwanted_folders)` loop and its `try`. */
    method Reclaim(targets: seq<Folder>, fault: Option<Fault>, rev: Revision) returns (outcome: Outcome, log: seq<Progress>)
      requires root.Some? && root.value.Dir?
      modifies this
      ensures root.Some? && root.value.Dir? && root.value.mtime == old(root.value.mtime)
      ensures (outcome, root.value.children) == Process(old(root.value.children), path, targets, fault, 0)
      ensures log == Log(rev, targets, outcome)
    {
      var n := |targets|;
      var header := if rev == MainScript then [Announced(n)] else [];
      var lines := [];
      ghost var run := Process(root.value.children, path, targets, fault, 0);
      var i := 0;
      while i < n
        invariant i <= n
        invariant root.Some? && root.value.Dir? && root.value.mtime == old(root.value.mtime)
        invariant Process(root.value.children, path, targets, fault, i) == run
        invariant lines == Removals(targets, i)
      {
        lines := lines + [Removing(i + 1, n, BaseName(targets[i].path))];
        var stop := RemoveNth(targets, fault, i);
        if stop.Some? {
          outcome := stop.value;
          log := header + lines;
          return;
        }
        i := i + 1;
      }
      outcome := Completed;
      log := header + lines + [Cleared];
    }

    /**
     * `main` from the validity check on: scan, plan, ask, and delete. `confirm` is the answer to
     * "clear ALL unwanted folders?", `fault` the `rmtree` that raises, if any.
     */
    method Run(env: Env, confirm: bool, fault: Option<Fault>, rev: Revision) returns (result: RunResult, log: seq<Progress>)
      modifies this
      ensures match Decide(rev, env, path, old(root), confirm)
        case Stop(h) => result == Halted(h) && root == old(root) && log == []
        case Delete(targets) =>
          var run := Process(old(root).value.children, path, targets, fault, 0);
          && result == Reclaimed(run.0)
          && root == Some(Dir(old(root).value.mtime, run.1))
          && log == Log(rev, targets, run.0)
    {
      log := [];
      if rev == MainScript {
        var valid := Validity.IsValidWSSPathMain(root);
        if valid.Err? {
          return Halted(Crashed(ListFailed)), [];
        }
      }
      var scanned := ParseWSSFolder(env, path, root);
      if scanned.Err? {
        return Halted(Crashed(ScanFailed(scanned.error))), [];
      }
      var unwanted := Unwanted(scanned.value);
      var total := SizeOfFolder(root.value);
      if unwanted == [] {
        return Halted(NothingUnwanted), [];
      }
      if total == 0 {
        return Halted(Crashed(ZeroDivision)), [];
      }
      if !confirm {
        return Halted(Declined), [];
      }
      var outcome;
      outcome, log := Reclaim(unwanted, fault, rev);
      result := Reclaimed(outcome);
    }
  }
}
