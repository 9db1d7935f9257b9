// The filesystem the index generator reads: a tree of directories and regular
// files rooted at the working directory, addressed by slash paths such as
// "docs/guide/setup.md". os.Stat, os.ReadDir and os.Open become lookups.
module FileTree {
  import opened GoStrings
  import opened Sorting

  type Bytes = seq<bv8>

  datatype Option<T> = None | Some(value: T)

  datatype Node = File(content: Bytes) | Dir(children: map<string, Node>)

  /** A name the operating system can give a directory entry. */
  predicate ValidName(name: string) {
    name != "" && '/' !in name && name != "." && name != ".."
  }

  /** Every entry name anywhere in the tree is a valid name. */
  predicate WellFormed(node: Node) {
    match node
    case File(_) => true
    case Dir(ch) => forall n :: n in ch ==> ValidName(n) && WellFormed(ch[n])
  }

  /** The entry reached from `node` by following the names `segs`. */
  function Lookup(node: Node, segs: seq<string>): Option<Node>
    decreases |segs|
  {
    if segs == [] then Some(node)
    else
      match Lookup(node, segs[..|segs| - 1])
      case Some(Dir(ch)) =>
        var last := segs[|segs| - 1];
        if last in ch then Some(ch[last]) else None
      case _ => None
  }

  /** The entry at slash path `p`, as os.Stat / os.Open find it. */
  function Resolve(fs: Node, p: string): Option<Node> {
    Lookup(fs, SplitPath(p))
  }

  /** os.Stat(p) succeeds (for an entry of any type). */
  predicate Exists(fs: Node, p: string) {
    Resolve(fs, p).Some?
  }

  predicate IsDirAt(fs: Node, p: string) {
    Resolve(fs, p).Some? && Resolve(fs, p).value.Dir?
  }

  /** The entry names os.ReadDir(p) reports, in its (ascending) order; empty when it fails. */
  function ReadDirNames(fs: Node, p: string): seq<string> {
    match Resolve(fs, p)
    case Some(Dir(ch)) => SortedNames(ch.Keys)
    case _ => []
  }

  /** Sub-trees of a well-formed tree are well-formed. */
  lemma {:induction false} LookupWellFormed(node: Node, segs: seq<string>)
    requires WellFormed(node)
    requires Lookup(node, segs).Some?
    ensures WellFormed(Lookup(node, segs).value)
    decreases |segs|
  {
    if segs != [] {
      LookupWellFormed(node, segs[..|segs| - 1]);
    }
  }

  /** Resolving `dir/name` is resolving `dir` and then taking its child `name`. */
  lemma ResolveChild(fs: Node, dir: string, name: string)
    requires '/' !in name
    ensures Resolve(fs, JoinPath(dir, name)) ==
      match Resolve(fs, dir)
      case Some(Dir(ch)) => if name in ch then Some(ch[name]) else None
      case _ => None
    ensures Base(JoinPath(dir, name)) == name
  {
    SplitJoinPath(dir, name);
    var segs := SplitPath(dir) + [name];
    assert segs[..|segs| - 1] == SplitPath(dir);
  }

  /** Taking one name off the front of a lookup path. */
  lemma {:induction false} LookupCons(ch: map<string, Node>, name: string, segs: seq<string>)
    ensures Lookup(Dir(ch), [name] + segs) ==
      if name in ch then Lookup(ch[name], segs) else None
    decreases |segs|
  {
    if segs != [] {
      var all := [name] + segs;
      assert all[..|all| - 1] == [name] + segs[..|segs| - 1];
      LookupCons(ch, name, segs[..|segs| - 1]);
    }
  }

  /** Nothing lies below a regular file. */
  lemma {:induction false} LookupInFile(c: Bytes, segs: seq<string>)
    requires segs != []
    ensures Lookup(File(c), segs) == None
    decreases |segs|
  {
    if |segs| > 1 {
      LookupInFile(c, segs[..|segs| - 1]);
    }
  }
}
