// hasMarkdownFiles: does a directory deserve a place in the summary?
module Scanner {
  import opened GoStrings
  import opened FileTree

  const ReadmeName := "README.md"

  /** The Markdown test on an entry name: its lower-cased form ends in ".md". */
  predicate IsMarkdownName(name: string) {
    HasSuffix(ToLower(name), ".md")
  }

  /** `node` holds an entry named README.md, of any type (os.Stat does not look at the type). */
  predicate HasReadme(node: Node) {
    node.Dir? && ReadmeName in node.children
  }

  /** The walk of filepath.WalkDir from `node`, whose own entry is called `name`:
      some non-directory entry, the start included, has a Markdown name. */
  predicate AnyMarkdown(node: Node, name: string)
    decreases node
  {
    match node
    case File(_) => IsMarkdownName(name)
    case Dir(ch) => exists n :: n in ch && AnyMarkdown(ch[n], n)
  }

  /** hasMarkdownFiles(dir): README.md exists under `dir`, or the walk finds a Markdown file.
      A directory that cannot be walked is one without Markdown files. */
  predicate HasMarkdownFiles(fs: Node, dir: string) {
    Exists(fs, JoinPath(dir, ReadmeName)) ||
    match Resolve(fs, dir)
    case None => false
    case Some(node) => AnyMarkdown(node, Base(dir))
  }

  /** The same decision, taken from the directory's own tree node. */
  predicate Includes(node: Node, name: string) {
    HasReadme(node) || AnyMarkdown(node, name)
  }

  lemma HasMarkdownFilesAt(fs: Node, dir: string, node: Node)
    requires Resolve(fs, dir) == Some(node)
    ensures HasMarkdownFiles(fs, dir) == Includes(node, Base(dir))
  {
    ResolveChild(fs, dir, ReadmeName);
  }

  /** The name of the entry reached by `segs` from a start called `name`. */
  function NameAt(name: string, segs: seq<string>): string {
    if segs == [] then name else segs[|segs| - 1]
  }

  /** Following `segs` from `node` reaches a regular file with a Markdown name. */
  predicate MarkdownFileAt(node: Node, name: string, segs: seq<string>) {
    match Lookup(node, segs)
    case Some(File(_)) => IsMarkdownName(NameAt(name, segs))
    case _ => false
  }

  lemma NameAtCons(name: string, n: string, segs: seq<string>)
    ensures NameAt(name, [n] + segs) == NameAt(n, segs)
  {
  }

  /** The walk finds a Markdown file exactly when one exists somewhere in the sub-tree. */
  lemma {:induction false} AnyMarkdownIff(node: Node, name: string)
    ensures AnyMarkdown(node, name) <==> exists segs :: MarkdownFileAt(node, name, segs)
    decreases node
  {
    match node
    case File(c) =>
      if AnyMarkdown(node, name) {
        assert MarkdownFileAt(node, name, []);
      }
      forall segs | MarkdownFileAt(node, name, segs) ensures AnyMarkdown(node, name) {
        if segs != [] { LookupInFile(c, segs); }
      }
    case Dir(ch) =>
      if AnyMarkdown(node, name) {
        var n :| n in ch && AnyMarkdown(ch[n], n);
        AnyMarkdownIff(ch[n], n);
        var segs :| MarkdownFileAt(ch[n], n, segs);
        LookupCons(ch, n, segs);
        NameAtCons(name, n, segs);
        assert MarkdownFileAt(node, name, [n] + segs);
      }
      if exists segs :: MarkdownFileAt(node, name, segs) {
        var segs :| MarkdownFileAt(node, name, segs);
        assert segs != [];
        var n, rest := segs[0], segs[1..];
        assert segs == [n] + rest;
        LookupCons(ch, n, rest);
        NameAtCons(name, n, rest);
        assert n in ch && MarkdownFileAt(ch[n], n, rest);
        AnyMarkdownIff(ch[n], n);
      }
  }

  /** hasMarkdownFiles holds exactly when `dir`/README.md exists, or a regular file with a
      Markdown name (in any letter case) lies anywhere below `dir`. */
  lemma HasMarkdownFilesIff(fs: Node, dir: string)
    ensures HasMarkdownFiles(fs, dir) <==>
      Exists(fs, JoinPath(dir, ReadmeName)) ||
      (Resolve(fs, dir).Some? && exists segs :: MarkdownFileAt(Resolve(fs, dir).value, Base(dir), segs))
  {
    if Resolve(fs, dir).Some? {
      AnyMarkdownIff(Resolve(fs, dir).value, Base(dir));
    }
  }
}
