/**
 * An in-memory directory tree standing in for the disk, and the recursive folder size
 * (`getSizeOfFolder`). The order of a directory's `children` is the order in which
 * `Path.iterdir` / `os.listdir` enumerate it.
 */
module FileSystem {
  import opened Seqs

  /** What `json.loads` makes of a file's text: not JSON at all, or a JSON object of string fields. */
  datatype Json = Unparsable | Object(fields: map<string, string>)

  /**
   * A regular file (its byte length and the parse of its text), a directory (its modification
   * time in integer seconds and its entries) or any other kind of entry (socket, FIFO, device),
   * which is neither `is_file()` nor `is_dir()`.
   */
  datatype Node = File(size: nat, content: Json) | Dir(mtime: int, children: seq<Entry>) | Other

  datatype Entry = Entry(name: string, node: Node)

  const ManifestName: string := "workspace.json"

  /** No two entries of one directory share a name. */
  predicate DistinctNames(cs: seq<Entry>)
  {
    forall i, j :: 0 <= i < j < |cs| ==> cs[i].name != cs[j].name
  }

  /** `Path(dir) / name` */
  function JoinPath(dir: string, name: string): string
  {
    dir + "/" + name
  }

  /** Two entries of one directory have the same path only if they have the same name. */
  lemma JoinPathInjective(dir: string, a: string, b: string)
    ensures JoinPath(dir, a) == JoinPath(dir, b) ==> a == b
  {
    if JoinPath(dir, a) == JoinPath(dir, b) {
      assert a == JoinPath(dir, a)[|dir| + 1..];
      assert b == JoinPath(dir, b)[|dir| + 1..];
    }
  }

  /**
   * The text after the last separator: `Path(p).name` for the paths `JoinPath(dir, name)` this
   * model passes in. Unlike `Path`, it does not drop a trailing separator (`"a/b/"` gives `""`).
   */
  function BaseName(p: string): (r: string)
    ensures '/' !in r
    ensures |r| <= |p|
  {
    if p == [] || p[|p| - 1] == '/' then [] else BaseName(p[..|p| - 1]) + [p[|p| - 1]]
  }

  /** The name shown while an entry is removed is the entry's own name. */
  lemma {:induction false} BaseNameOfJoin(dir: string, name: string)
    requires '/' !in name
    ensures BaseName(JoinPath(dir, name)) == name
  {
    if name != [] {
      var n := |name| - 1;
      assert JoinPath(dir, name)[..|JoinPath(dir, name)| - 1] == JoinPath(dir, name[..n]);
      BaseNameOfJoin(dir, name[..n]);
      assert name == name[..n] + [name[n]];
    }
  }

  /** The first entry of `cs` called `name`, if any (`(dir / name)` resolved one level down). */
  function Lookup(cs: seq<Entry>, name: string): (r: Option<Node>)
    ensures r.None? <==> forall i :: 0 <= i < |cs| ==> cs[i].name != name
    ensures r.Some? ==> exists i :: 0 <= i < |cs| && cs[i] == Entry(name, r.value)
  {
    if cs == [] then None
    else if cs[0].name == name then Some(cs[0].node)
    else
      var r := Lookup(cs[1..], name);
      assert forall i :: 1 <= i < |cs| ==> cs[i] == cs[1..][i - 1];
      r
  }

  /** Bytes under a node: a regular file counts its length, a directory its contents, anything else 0. */
  function Size(n: Node): nat
  {
    match n
    case File(size, _) => size
    case Dir(_, cs) => ChildrenSize(cs)
    case Other => 0
  }

  function ChildrenSize(cs: seq<Entry>): nat
  {
    if cs == [] then 0 else ChildrenSize(cs[..|cs| - 1]) + Size(cs[|cs| - 1].node)
  }

  function EntrySize(e: Entry): nat
  {
    Size(e.node)
  }

  /** A directory's size is the sum of its entries' sizes. */
  lemma {:induction false} ChildrenSizeIsSum(cs: seq<Entry>)
    ensures ChildrenSize(cs) == SumOf(cs, EntrySize)
  {
    if cs != [] {
      ChildrenSizeIsSum(cs[..|cs| - 1]);
    }
  }

  /** The total of a directory's entries is additive over any split of their sequence into a prefix and a suffix. */
  lemma ChildrenSizeAppend(a: seq<Entry>, b: seq<Entry>)
    ensures ChildrenSize(a + b) == ChildrenSize(a) + ChildrenSize(b)
  {
    ChildrenSizeIsSum(a);
    ChildrenSizeIsSum(b);
    ChildrenSizeIsSum(a + b);
    SumOfAppend(a, b, EntrySize);
  }

  /** No entry is larger than the directory that holds it. */
  lemma {:induction false} ChildSizeBound(cs: seq<Entry>, i: nat)
    requires i < |cs|
    ensures Size(cs[i].node) <= ChildrenSize(cs)
  {
    if i < |cs| - 1 {
      ChildSizeBound(cs[..|cs| - 1], i);
    }
  }

  /** `getSizeOfFolder`: walks the entries in order, adding file lengths and recursing into subdirectories. */
  method SizeOfFolder(dir: Node) returns (total: nat)
    requires dir.Dir?
    ensures total == Size(dir)
    decreases dir
  {
    total := 0;
    var cs := dir.children;
    var i := 0;
    while i < |cs|
      invariant i <= |cs|
      invariant total == ChildrenSize(cs[..i])
    {
      var e := cs[i];
      assert cs[..i + 1][..i] == cs[..i];
      match e.node {
        case File(size, _) =>
          total := total + size;
        case Dir(_, _) =>
          var sub := SizeOfFolder(e.node);
          total := total + sub;
        case Other =>
      }
      i := i + 1;
    }
    assert cs[..i] == cs;
  }
}
