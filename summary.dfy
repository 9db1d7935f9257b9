// What one run of the index generator writes: the lines of docs/src/SUMMARY.md
// and the files it copies under docs/src, as pure functions of the source tree.
module Summary {
  import opened GoStrings
  import opened Sorting
  import opened FileTree
  import opened Titles
  import opened Scanner

  // ----- configuration -----

  const SourceDir := "docs"
  /** filepath.Join(sourceDir, "src") */
  const DestDir := "docs/src"
  /** filepath.Join(sourceDir, "src", "SUMMARY.md") */
  const OutputFile := "docs/src/SUMMARY.md"
  const IgnoredDirs: seq<string> := ["scripts", "src", ".git", "node_modules", ".github", ".vscode"]
  const FirstChapter := "introduction"
  const SummaryHeading := "# Summary"

  // ----- summary lines -----

  /** A list item `<indent>- [<title>](<link>)`, or the empty line after a directory block. */
  datatype Line = Entry(indent: string, title: string, link: string) | Blank

  /** The text fmt.Fprintf / fmt.Fprintln put on the line (without its newline). */
  function Render(line: Line): string {
    match line
    case Entry(indent, title, link) => indent + "- [" + title + "](" + link + ")"
    case Blank => ""
  }

  function RenderAll(lines: seq<Line>): seq<string> {
    seq(|lines|, i requires 0 <= i < |lines| => Render(lines[i]))
  }

  lemma RenderAllAppend(a: seq<Line>, b: seq<Line>)
    ensures RenderAll(a + b) == RenderAll(a) + RenderAll(b)
  {
  }

  // ----- copies into docs/src -----

  /** One call copyFile(src, dst). */
  datatype Copy = Copy(src: string, dst: string)

  /** What a walk writes: summary lines and copyFile calls, each in program order. */
  datatype Trace = Trace(lines: seq<Line>, copies: seq<Copy>) {
    function Then(next: Trace): Trace {
      Trace(lines + next.lines, copies + next.copies)
    }
  }

  const Quiet := Trace([], [])

  lemma ThenAssoc(a: Trace, b: Trace, c: Trace)
    ensures a.Then(b).Then(c) == a.Then(b.Then(c))
  {
    assert (a.lines + b.lines) + c.lines == a.lines + (b.lines + c.lines);
    assert (a.copies + b.copies) + c.copies == a.copies + (b.copies + c.copies);
  }

  lemma ThenQuiet(t: Trace)
    ensures t.Then(Quiet) == t && Quiet.Then(t) == t
  {
    assert t.lines + [] == t.lines && [] + t.lines == t.lines;
    assert t.copies + [] == t.copies && [] + t.copies == t.copies;
  }

  /** The destination files after copyFile(c.src, c.dst). Opening a missing source
      fails before anything is created; a directory opens, so the destination is
      created empty before the read fails. */
  function Copied(fs: Node, mirror: map<string, Bytes>, c: Copy): map<string, Bytes> {
    match Resolve(fs, c.src)
    case None => mirror
    case Some(File(content)) => mirror[c.dst := content]
    case Some(Dir(_)) => mirror[c.dst := []]
  }

  function ApplyCopies(fs: Node, mirror: map<string, Bytes>, copies: seq<Copy>): map<string, Bytes>
    decreases |copies|
  {
    if copies == [] then mirror
    else Copied(fs, ApplyCopies(fs, mirror, copies[..|copies| - 1]), copies[|copies| - 1])
  }

  /** Copying a batch and then another is copying their concatenation. */
  lemma {:induction false} ApplyCopiesAppend(fs: Node, mirror: map<string, Bytes>, a: seq<Copy>, b: seq<Copy>)
    ensures ApplyCopies(fs, ApplyCopies(fs, mirror, a), b) == ApplyCopies(fs, mirror, a + b)
    decreases |b|
  {
    if b == [] {
      assert a + b == a;
    } else {
      var ab := a + b;
      assert ab[..|ab| - 1] == a + b[..|b| - 1];
      assert ab[|ab| - 1] == b[|b| - 1];
      ApplyCopiesAppend(fs, mirror, a, b[..|b| - 1]);
    }
  }

  /** Writing the effects of `a` and then those of `b` writes the effects of a.Then(b). */
  lemma TraceThen(fs: Node, lines0: seq<string>, mirror: map<string, Bytes>, a: Trace, b: Trace)
    ensures lines0 + RenderAll(a.lines) + RenderAll(b.lines) == lines0 + RenderAll(a.Then(b).lines)
    ensures ApplyCopies(fs, ApplyCopies(fs, mirror, a.copies), b.copies) == ApplyCopies(fs, mirror, a.Then(b).copies)
  {
    RenderAllAppend(a.lines, b.lines);
    ApplyCopiesAppend(fs, mirror, a.copies, b.copies);
  }

  // ----- the Markdown collector -----

  /** The collector's callback keeps a non-directory whose name does not end in
      "README.md" (case-sensitive) and whose lower-cased name ends in ".md". */
  predicate Collected(name: string) {
    !HasSuffix(name, ReadmeName) && IsMarkdownName(name)
  }

  /** The paths the collector appends, in the lexical order of filepath.WalkDir,
      starting at `node` found at `path` under the name `name`. The walk is not
      pruned at sub-directories: files at every depth are collected. */
  function MdList(node: Node, path: string, name: string): seq<string>
    decreases node, 1
  {
    match node
    case File(_) => if Collected(name) then [path] else []
    case Dir(ch) => MdListAll(node, path, SortedNames(ch.Keys))
  }

  function MdListAll(parent: Node, path: string, names: seq<string>): seq<string>
    requires parent.Dir?
    requires forall i :: 0 <= i < |names| ==> names[i] in parent.children
    decreases parent, 0, |names|
  {
    if names == [] then []
    else
      var n := names[|names| - 1];
      MdListAll(parent, path, names[..|names| - 1]) + MdList(parent.children[n], JoinPath(path, n), n)
  }

  /** One more name of the listing collects one more child. */
  lemma MdListAllStep(parent: Node, path: string, names: seq<string>, i: nat)
    requires parent.Dir? && i < |names|
    requires forall k :: 0 <= k < |names| ==> names[k] in parent.children
    ensures MdListAll(parent, path, names[..i + 1]) ==
      MdListAll(parent, path, names[..i]) + MdList(parent.children[names[i]], JoinPath(path, names[i]), names[i])
  {
    assert names[..i + 1][..i] == names[..i];
  }

  /** The entry at `p`; one that cannot be read behaves as an empty directory
      (os.Stat fails, filepath.WalkDir and os.ReadDir report nothing). */
  function NodeAt(fs: Node, p: string): Node {
    match Resolve(fs, p)
    case Some(node) => node
    case None => Dir(map[])
  }

  /** What the walk needs to know about the entry at `dir`, read off its tree node. */
  lemma DirFacts(fs: Node, dir: string)
    requires WellFormed(fs)
    ensures WellFormed(NodeAt(fs, dir))
    ensures HasMarkdownFiles(fs, dir) == Includes(NodeAt(fs, dir), Base(dir))
    ensures Exists(fs, JoinPath(dir, ReadmeName)) == HasReadme(NodeAt(fs, dir))
    ensures ReadDirNames(fs, dir) ==
      if NodeAt(fs, dir).Dir? then SortedNames(NodeAt(fs, dir).children.Keys) else []
  {
    ResolveChild(fs, dir, ReadmeName);
    match Resolve(fs, dir)
    case None =>
    case Some(node) =>
      LookupWellFormed(fs, SplitPath(dir));
      HasMarkdownFilesAt(fs, dir, node);
  }

  /** The entry at `dir` seen as a directory: a file has no entries to list. */
  function AsDir(node: Node): Node {
    if node.Dir? then node else Dir(map[])
  }

  /** The child `n` of the directory at `dir` is the entry at `dir`/`n`. */
  lemma ChildFacts(fs: Node, dir: string, n: string)
    requires WellFormed(fs)
    requires NodeAt(fs, dir).Dir? && n in NodeAt(fs, dir).children
    ensures Resolve(fs, JoinPath(dir, n)) == Some(NodeAt(fs, dir).children[n])
    ensures NodeAt(fs, JoinPath(dir, n)) == NodeAt(fs, dir).children[n]
    ensures IsDirAt(fs, JoinPath(dir, n)) == NodeAt(fs, dir).children[n].Dir?
  {
    DirFacts(fs, dir);
    ResolveChild(fs, dir, n);
  }

  // ----- walkDir -----

  /** The directory line: linked to README.md when one exists (and that README copied),
      a heading without link when the directory merely contains Markdown, else nothing. */
  function Header(node: Node, dir: string, rel: string, indent: string, listed: bool): Trace {
    var title := Prettify(Base(dir));
    if HasReadme(node) then
      Trace([Entry(indent, title, JoinPath(rel, ReadmeName))],
            [Copy(JoinPath(dir, ReadmeName), JoinPath(JoinPath(DestDir, rel), ReadmeName))])
    else if listed then Trace([Entry(indent, title, "")], [])
    else Quiet
  }

  /** The line and the copy for one collected file. */
  function FileEntry(path: string, rel: string, indent: string): Trace {
    var base := Base(path);
    Trace([Entry(indent + "  ", Prettify(TrimSuffix(base, ".md")), JoinPath(rel, base))],
          [Copy(path, JoinPath(JoinPath(DestDir, rel), base))])
  }

  function FileEntries(files: seq<string>, rel: string, indent: string): Trace
    decreases |files|
  {
    if files == [] then Quiet
    else FileEntries(files[..|files| - 1], rel, indent).Then(FileEntry(files[|files| - 1], rel, indent))
  }

  lemma FileEntriesStep(done: Trace, files: seq<string>, i: nat, rel: string, indent: string)
    requires i < |files|
    ensures done.Then(FileEntries(files[..i], rel, indent)).Then(FileEntry(files[i], rel, indent)) ==
            done.Then(FileEntries(files[..i + 1], rel, indent))
  {
    assert files[..i + 1][..i] == files[..i];
    ThenAssoc(done, FileEntries(files[..i], rel, indent), FileEntry(files[i], rel, indent));
  }

  /** The sub-directories walkDir descends into: directories whose name is not ignored. */
  function Descend(ch: map<string, Node>, names: seq<string>): (kept: seq<string>)
    requires forall i :: 0 <= i < |names| ==> names[i] in ch
    ensures forall n :: n in kept <==> n in names && n in ch && ch[n].Dir? && n !in IgnoredDirs
    decreases |names|
  {
    if names == [] then []
    else
      var n := names[|names| - 1];
      Descend(ch, names[..|names| - 1]) + if ch[n].Dir? && n !in IgnoredDirs then [n] else []
  }

  /** walkDir(dir, rel, indent) on the entry `node` found at `dir`. */
  function WalkNode(node: Node, dir: string, rel: string, indent: string): Trace
    decreases node, 2
  {
    if HasPrefix(dir, DestDir) then Quiet
    else
      var listed := Includes(node, Base(dir));
      Header(node, dir, rel, indent, listed)
        .Then(FileEntries(Sort(MdList(node, dir, Base(dir))), rel, indent))
        .Then(if listed then Trace([Blank], []) else Quiet)
        .Then(ChildrenTrace(node, dir, rel, indent))
  }

  /** The walks of the sub-directories of `node`, in name order. */
  function ChildrenTrace(node: Node, dir: string, rel: string, indent: string): Trace
    decreases node, 1
  {
    match node
    case File(_) => Quiet
    case Dir(ch) => WalkChildren(node, dir, rel, indent, Descend(ch, SortedNames(ch.Keys)))
  }

  function WalkChildren(parent: Node, dir: string, rel: string, indent: string, names: seq<string>): Trace
    requires parent.Dir?
    requires forall i :: 0 <= i < |names| ==> names[i] in parent.children
    decreases parent, 0, |names|
  {
    if names == [] then Quiet
    else
      var n := names[|names| - 1];
      WalkChildren(parent, dir, rel, indent, names[..|names| - 1])
        .Then(WalkNode(parent.children[n], JoinPath(dir, n), JoinPath(rel, n), indent + "  "))
  }

  lemma WalkChildrenStep(done: Trace, parent: Node, dir: string, rel: string, indent: string, names: seq<string>, i: nat)
    requires parent.Dir?
    requires forall j :: 0 <= j < |names| ==> names[j] in parent.children
    requires i < |names|
    ensures var n := names[i];
      var before := done.Then(WalkChildren(parent, dir, rel, indent, Descend(parent.children, names[..i])));
      var after := done.Then(WalkChildren(parent, dir, rel, indent, Descend(parent.children, names[..i + 1])));
      if parent.children[n].Dir? && n !in IgnoredDirs
      then after == before.Then(WalkNode(parent.children[n], JoinPath(dir, n), JoinPath(rel, n), indent + "  "))
      else after == before
  {
    var n := names[i];
    var ch := parent.children;
    assert names[..i + 1][..i] == names[..i];
    var kept := Descend(ch, names[..i]);
    if ch[n].Dir? && n !in IgnoredDirs {
      var more := kept + [n];
      assert more[..|more| - 1] == kept;
      ThenAssoc(done, WalkChildren(parent, dir, rel, indent, kept),
                WalkNode(ch[n], JoinPath(dir, n), JoinPath(rel, n), indent + "  "));
    } else {
      assert kept + [] == kept;
    }
  }

  /** walkDir(dir, rel, indent) on the tree `fs`. */
  function WalkAt(fs: Node, dir: string, rel: string, indent: string): Trace {
    WalkNode(NodeAt(fs, dir), dir, rel, indent)
  }

  // ----- generateIndex -----

  /** The top-level entries walked after the first chapter: directories other than
      the first chapter whose name is not ignored, in os.ReadDir order. */
  function KeepTop(fs: Node, names: seq<string>): seq<string>
    decreases |names|
  {
    if names == [] then []
    else
      var n := names[|names| - 1];
      KeepTop(fs, names[..|names| - 1]) +
        if IsDirAt(fs, JoinPath(SourceDir, n)) && n != FirstChapter && n !in IgnoredDirs then [n] else []
  }

  function TopLevel(fs: Node): seq<string> {
    KeepTop(fs, ReadDirNames(fs, SourceDir))
  }

  function WalkTop(fs: Node, names: seq<string>): Trace
    decreases |names|
  {
    if names == [] then Quiet
    else
      var n := names[|names| - 1];
      WalkTop(fs, names[..|names| - 1]).Then(WalkAt(fs, JoinPath(SourceDir, n), n, ""))
  }

  lemma WalkTopStep(done: Trace, fs: Node, names: seq<string>, i: nat)
    requires i < |names|
    ensures var n := names[i];
      var before := done.Then(WalkTop(fs, KeepTop(fs, names[..i])));
      var after := done.Then(WalkTop(fs, KeepTop(fs, names[..i + 1])));
      if IsDirAt(fs, JoinPath(SourceDir, n)) && n != FirstChapter && n !in IgnoredDirs
      then after == before.Then(WalkAt(fs, JoinPath(SourceDir, n), n, ""))
      else after == before
  {
    var n := names[i];
    assert names[..i + 1][..i] == names[..i];
    var kept := KeepTop(fs, names[..i]);
    if IsDirAt(fs, JoinPath(SourceDir, n)) && n != FirstChapter && n !in IgnoredDirs {
      var more := kept + [n];
      assert more[..|more| - 1] == kept;
      ThenAssoc(done, WalkTop(fs, kept), WalkAt(fs, JoinPath(SourceDir, n), n, ""));
    } else {
      assert kept + [] == kept;
    }
  }

  /** The first chapter, walked only when docs/introduction exists. */
  function FirstChapterTrace(fs: Node): Trace {
    var intro := JoinPath(SourceDir, FirstChapter);
    if Exists(fs, intro) then WalkAt(fs, intro, FirstChapter, "") else Quiet
  }

  /** Everything generateIndex writes after the "# Summary" line. */
  function IndexTrace(fs: Node): Trace {
    FirstChapterTrace(fs).Then(WalkTop(fs, TopLevel(fs)))
  }

  datatype SetupError = CannotCreateDestDir | CannotCreateSummary

  /** os.MkdirAll(destDir) fails when a path element is not a directory;
      os.Create(outputFile) fails when the summary path is a directory. */
  function SetupFailure(fs: Node): Option<SetupError> {
    if Resolve(fs, SourceDir).Some? && Resolve(fs, SourceDir).value.File? then Some(CannotCreateDestDir)
    else if Resolve(fs, DestDir).Some? && Resolve(fs, DestDir).value.File? then Some(CannotCreateDestDir)
    else if IsDirAt(fs, OutputFile) then Some(CannotCreateSummary)
    else None
  }
}
