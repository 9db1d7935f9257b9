// What the generated summary is guaranteed to look like, for every source tree.
module SummaryFacts {
  import opened GoStrings
  import opened Sorting
  import opened FileTree
  import opened Titles
  import opened Scanner
  import opened Summary

  // ----- the Markdown collector -----

  /** The path reached from `path` by appending the names `segs`. */
  function Under(path: string, segs: seq<string>): string
    decreases |segs|
  {
    if segs == [] then path else Under(JoinPath(path, segs[0]), segs[1..])
  }

  /** Following `segs` from `node` (called `name`) reaches a regular file the collector keeps. */
  predicate CollectedAt(node: Node, name: string, segs: seq<string>) {
    match Lookup(node, segs)
    case Some(File(_)) => Collected(NameAt(name, segs))
    case _ => false
  }

  lemma {:induction false} MdListAllMember(parent: Node, path: string, names: seq<string>, p: string)
    requires parent.Dir?
    requires forall i :: 0 <= i < |names| ==> names[i] in parent.children
    ensures p in MdListAll(parent, path, names) <==>
      exists k :: 0 <= k < |names| && p in MdList(parent.children[names[k]], JoinPath(path, names[k]), names[k])
    decreases |names|
  {
    if names != [] {
      var init := names[..|names| - 1];
      MdListAllMember(parent, path, init, p);
      if p in MdListAll(parent, path, init) {
        var k :| 0 <= k < |init| && p in MdList(parent.children[init[k]], JoinPath(path, init[k]), init[k]);
        assert names[k] == init[k];
      }
      var k0 := |names| - 1;
      if p in MdList(parent.children[names[k0]], JoinPath(path, names[k0]), names[k0]) {
        assert 0 <= k0 < |names|;
      }
      if exists k :: 0 <= k < |names| && p in MdList(parent.children[names[k]], JoinPath(path, names[k]), names[k]) {
        var k :| 0 <= k < |names| && p in MdList(parent.children[names[k]], JoinPath(path, names[k]), names[k]);
        if k < k0 {
          assert init[k] == names[k];
        }
      }
    }
  }

  /** Each collected path is a regular file somewhere below the start whose name passes
      the collector's test. */
  lemma {:induction false} MdListSound(node: Node, path: string, name: string, p: string)
    requires p in MdList(node, path, name)
    ensures exists segs :: CollectedAt(node, name, segs) && p == Under(path, segs)
    decreases node
  {
    match node
    case File(c) =>
      assert CollectedAt(node, name, []) && p == Under(path, []);
    case Dir(ch) =>
      var names := SortedNames(ch.Keys);
      MdListAllMember(node, path, names, p);
      var k :| 0 <= k < |names| && p in MdList(ch[names[k]], JoinPath(path, names[k]), names[k]);
      var n := names[k];
      MdListSound(ch[n], JoinPath(path, n), n, p);
      var rest :| CollectedAt(ch[n], n, rest) && p == Under(JoinPath(path, n), rest);
      LookupCons(ch, n, rest);
      NameAtCons(name, n, rest);
      var segs := [n] + rest;
      assert segs[1..] == rest;
      assert CollectedAt(node, name, segs) && p == Under(path, segs);
  }

  /** Every regular file below the start whose name passes the test is collected, at
      any depth: the walk does not stop at sub-directories. */
  lemma {:induction false} MdListComplete(node: Node, path: string, name: string, segs: seq<string>)
    requires CollectedAt(node, name, segs)
    ensures Under(path, segs) in MdList(node, path, name)
    decreases node
  {
    match node
    case File(c) =>
      if segs != [] { LookupInFile(c, segs); }
    case Dir(ch) =>
      var names := SortedNames(ch.Keys);
      var n, rest := segs[0], segs[1..];
      assert segs == [n] + rest;
      LookupCons(ch, n, rest);
      NameAtCons(name, n, rest);
      MdListComplete(ch[n], JoinPath(path, n), n, rest);
      var k :| 0 <= k < |names| && names[k] == n;
      MdListAllMember(node, path, names, Under(path, segs));
  }

  /** The collector lists exactly the regular files anywhere below the start (the start
      itself when it is a file) whose name passes its test, each under its full path. */
  lemma MdListMembers(node: Node, path: string, name: string, p: string)
    ensures p in MdList(node, path, name) <==> exists segs :: CollectedAt(node, name, segs) && p == Under(path, segs)
  {
    if p in MdList(node, path, name) {
      MdListSound(node, path, name, p);
    }
    if exists segs :: CollectedAt(node, name, segs) && p == Under(path, segs) {
      var segs :| CollectedAt(node, name, segs) && p == Under(path, segs);
      MdListComplete(node, path, name, segs);
    }
  }

  /** Every collected path names a regular file of the tree whose own name passes the
      collector's test. */
  lemma {:induction false} MdListResolves(fs: Node, node: Node, path: string)
    requires WellFormed(node)
    requires Resolve(fs, path) == Some(node)
    ensures forall p :: p in MdList(node, path, Base(path)) ==>
      Resolve(fs, p).Some? && Resolve(fs, p).value.File? && Collected(Base(p))
    decreases node
  {
    match node
    case File(_) =>
    case Dir(ch) =>
      var names := SortedNames(ch.Keys);
      forall p | p in MdList(node, path, Base(path))
        ensures Resolve(fs, p).Some? && Resolve(fs, p).value.File? && Collected(Base(p))
      {
        MdListAllMember(node, path, names, p);
        var k :| 0 <= k < |names| && p in MdList(ch[names[k]], JoinPath(path, names[k]), names[k]);
        var n := names[k];
        ResolveChild(fs, path, n);
        MdListResolves(fs, ch[n], JoinPath(path, n));
      }
  }

  /** A collected file makes the walk of hasMarkdownFiles succeed: a directory with file
      entries always gets a directory line. */
  lemma {:induction false} MdListMarkdown(node: Node, path: string, name: string)
    requires MdList(node, path, name) != []
    ensures AnyMarkdown(node, name)
    decreases node
  {
    match node
    case File(_) =>
    case Dir(ch) =>
      var names := SortedNames(ch.Keys);
      var p := MdList(node, path, name)[0];
      MdListAllMember(node, path, names, p);
      var k :| 0 <= k < |names| && p in MdList(ch[names[k]], JoinPath(path, names[k]), names[k]);
      MdListMarkdown(ch[names[k]], JoinPath(path, names[k]), names[k]);
  }

  // ----- order of the walk -----

  /** walkDir descends into its kept sub-directories in strictly ascending name order. */
  lemma {:induction false} DescendSorted(ch: map<string, Node>, names: seq<string>)
    requires forall i :: 0 <= i < |names| ==> names[i] in ch
    requires StrictlySorted(names)
    ensures StrictlySorted(Descend(ch, names))
    decreases |names|
  {
    if names != [] {
      var init := names[..|names| - 1];
      var last := names[|names| - 1];
      DescendSorted(ch, init);
      var kept := Descend(ch, init);
      forall x | x in kept ensures Less(x, last) {
        var j :| 0 <= j < |init| && init[j] == x;
      }
    }
  }

  /** The top-level directories walked after the first chapter: in strictly ascending
      name order, and exactly the directories of docs other than the first chapter and
      the ignored names. */
  lemma {:induction false} KeepTopFacts(fs: Node, names: seq<string>)
    requires StrictlySorted(names)
    ensures StrictlySorted(KeepTop(fs, names))
    ensures forall n :: n in KeepTop(fs, names) <==>
      n in names && IsDirAt(fs, JoinPath(SourceDir, n)) && n != FirstChapter && n !in IgnoredDirs
    decreases |names|
  {
    if names != [] {
      var init := names[..|names| - 1];
      var last := names[|names| - 1];
      KeepTopFacts(fs, init);
      var kept := KeepTop(fs, init);
      forall x | x in kept ensures Less(x, last) {
        var j :| 0 <= j < |init| && init[j] == x;
      }
      assert names == init + [last];
    }
  }

  lemma TopLevelOrder(fs: Node)
    ensures StrictlySorted(TopLevel(fs))
    ensures forall n :: n in TopLevel(fs) <==>
      n in ReadDirNames(fs, SourceDir) && IsDirAt(fs, JoinPath(SourceDir, n)) && n != FirstChapter && n !in IgnoredDirs
  {
    KeepTopFacts(fs, ReadDirNames(fs, SourceDir));
  }

  // ----- the lines of one directory -----

  /** File entry j is the line of the j-th file. */
  lemma {:induction false} FileLineAt(files: seq<string>, rel: string, indent: string, j: nat)
    requires j < |files|
    ensures j < |FileEntries(files, rel, indent).lines|
    ensures FileEntries(files, rel, indent).lines[j] == FileEntry(files[j], rel, indent).lines[0]
    decreases |files|
  {
    var init := files[..|files| - 1];
    var last := FileEntry(files[|files| - 1], rel, indent).lines;
    var front := FileEntries(init, rel, indent).lines;
    assert FileEntries(files, rel, indent).lines == front + last;
    assert |front| == |init| by { FileEntriesCount(init, rel, indent); }
    if j < |init| {
      assert front[j] == FileEntry(files[j], rel, indent).lines[0] by {
        FileLineAt(init, rel, indent, j);
        assert files[j] == init[j];
      }
      assert (front + last)[j] == front[j];
    } else {
      assert (front + last)[j] == last[0];
    }
  }

  /** Copy j is the copy of the j-th file. */
  lemma {:induction false} FileCopyAt(files: seq<string>, rel: string, indent: string, j: nat)
    requires j < |files|
    ensures j < |FileEntries(files, rel, indent).copies|
    ensures FileEntries(files, rel, indent).copies[j] == FileEntry(files[j], rel, indent).copies[0]
    decreases |files|
  {
    var init := files[..|files| - 1];
    var last := FileEntry(files[|files| - 1], rel, indent).copies;
    var front := FileEntries(init, rel, indent).copies;
    assert FileEntries(files, rel, indent).copies == front + last;
    assert |front| == |init| by { FileEntriesCount(init, rel, indent); }
    if j < |init| {
      assert front[j] == FileEntry(files[j], rel, indent).copies[0] by {
        FileCopyAt(init, rel, indent, j);
        assert files[j] == init[j];
      }
      assert (front + last)[j] == front[j];
    } else {
      assert (front + last)[j] == last[0];
    }
  }

  lemma FileEntriesShape(files: seq<string>, rel: string, indent: string)
    ensures var t := FileEntries(files, rel, indent);
      |t.lines| == |files| && |t.copies| == |files| &&
      forall j :: 0 <= j < |files| ==>
        t.lines[j] == Entry(indent + "  ", Prettify(TrimSuffix(Base(files[j]), ".md")), JoinPath(rel, Base(files[j]))) &&
        t.copies[j] == Copy(files[j], JoinPath(JoinPath(DestDir, rel), Base(files[j])))
  {
    FileEntriesCount(files, rel, indent);
    forall j | 0 <= j < |files|
      ensures FileEntries(files, rel, indent).lines[j] ==
        Entry(indent + "  ", Prettify(TrimSuffix(Base(files[j]), ".md")), JoinPath(rel, Base(files[j])))
      ensures FileEntries(files, rel, indent).copies[j] == Copy(files[j], JoinPath(JoinPath(DestDir, rel), Base(files[j])))
    {
      FileLineAt(files, rel, indent, j);
      FileCopyAt(files, rel, indent, j);
    }
  }

  /** The middle part of a concatenation, found by position. */
  lemma MiddlePart<T>(lines: seq<T>, head: seq<T>, entries: seq<T>, blank: seq<T>, rest: seq<T>)
    requires lines == head + entries + blank + rest
    ensures |head| + |entries| <= |lines| && lines[|head|..|head| + |entries|] == entries
  {
    assert lines == head + entries + (blank + rest);
    assert (head + entries + (blank + rest))[|head|..|head| + |entries|] == entries;
  }

  /** The directory line is there exactly when the directory is listed. */
  lemma HeaderCount(node: Node, dir: string, rel: string, indent: string)
    ensures var listed := Includes(node, Base(dir));
      |Header(node, dir, rel, indent, listed).lines| == if listed then 1 else 0
  {
  }

  /** There is one file line per file. */
  lemma {:induction false} FileEntriesCount(files: seq<string>, rel: string, indent: string)
    ensures |FileEntries(files, rel, indent).lines| == |files|
    ensures |FileEntries(files, rel, indent).copies| == |files|
    decreases |files|
  {
    if files != [] {
      FileEntriesCount(files[..|files| - 1], rel, indent);
    }
  }

  /** The lines of walkDir for a directory outside docs/src, in their four parts. */
  lemma WalkNodeParts(node: Node, dir: string, rel: string, indent: string)
    requires !HasPrefix(dir, DestDir)
    ensures var listed := Includes(node, Base(dir));
      WalkNode(node, dir, rel, indent).lines ==
        Header(node, dir, rel, indent, listed).lines +
        FileEntries(Sort(MdList(node, dir, Base(dir))), rel, indent).lines +
        (if listed then [Blank] else []) +
        ChildrenTrace(node, dir, rel, indent).lines
  {
  }

  /** The copies of walkDir for a directory outside docs/src, in their parts. */
  lemma WalkNodeCopies(node: Node, dir: string, rel: string, indent: string)
    requires !HasPrefix(dir, DestDir)
    ensures var listed := Includes(node, Base(dir));
      WalkNode(node, dir, rel, indent).copies ==
        Header(node, dir, rel, indent, listed).copies +
        FileEntries(Sort(MdList(node, dir, Base(dir))), rel, indent).copies +
        [] +
        ChildrenTrace(node, dir, rel, indent).copies
  {
  }

  /** A directory outside docs/src opens with its directory line exactly when it has a
      README.md or Markdown below it; the line links to the README when there is one. */
  lemma DirectoryLine(node: Node, dir: string, rel: string, indent: string)
    requires !HasPrefix(dir, DestDir)
    ensures var t := WalkNode(node, dir, rel, indent);
      var listed := Includes(node, Base(dir));
      (HasReadme(node) ==> listed) &&
      (listed ==>
        |t.lines| > 0 &&
        t.lines[0] == Entry(indent, Prettify(Base(dir)), if HasReadme(node) then JoinPath(rel, ReadmeName) else ""))
  {
    WalkNodeParts(node, dir, rel, indent);
  }

  /** A directory with collected files always gets its directory line. */
  lemma FilesNeedDirectoryLine(node: Node, dir: string)
    requires Sort(MdList(node, dir, Base(dir))) != []
    ensures Includes(node, Base(dir))
  {
    var collected := MdList(node, dir, Base(dir));
    var files := Sort(collected);
    assert files[0] in multiset(collected);
    MdListMarkdown(node, dir, Base(dir));
  }

  /** Below the directory line come the collected files, one line each, in ascending path
      order and two spaces deeper. */
  lemma FileLines(node: Node, dir: string, rel: string, indent: string)
    requires !HasPrefix(dir, DestDir)
    ensures var t := WalkNode(node, dir, rel, indent);
      var files := Sort(MdList(node, dir, Base(dir)));
      var h := if Includes(node, Base(dir)) then 1 else 0;
      h + |files| <= |t.lines| &&
      t.lines[h..h + |files|] == FileEntries(files, rel, indent).lines
  {
    var listed := Includes(node, Base(dir));
    var files := Sort(MdList(node, dir, Base(dir)));
    var head := Header(node, dir, rel, indent, listed).lines;
    var entries := FileEntries(files, rel, indent).lines;
    var lines := WalkNode(node, dir, rel, indent).lines;
    var blank: seq<Line> := if listed then [Blank] else [];
    var rest := ChildrenTrace(node, dir, rel, indent).lines;
    assert lines == head + entries + blank + rest by { WalkNodeParts(node, dir, rel, indent); }
    assert |head| == if listed then 1 else 0 by { HeaderCount(node, dir, rel, indent); }
    assert |entries| == |files| by { FileEntriesCount(files, rel, indent); }
    MiddlePart(lines, head, entries, blank, rest);
  }

  /** walkDir copies the README first when there is one, then each listed file in the
      order of its line, to docs/src/<rel>/<base>. */
  lemma FileCopies(node: Node, dir: string, rel: string, indent: string)
    requires !HasPrefix(dir, DestDir)
    ensures var t := WalkNode(node, dir, rel, indent);
      var files := Sort(MdList(node, dir, Base(dir)));
      var h := if HasReadme(node) then 1 else 0;
      (HasReadme(node) ==>
        |t.copies| > 0 &&
        t.copies[0] == Copy(JoinPath(dir, ReadmeName), JoinPath(JoinPath(DestDir, rel), ReadmeName))) &&
      h + |files| <= |t.copies| &&
      t.copies[h..h + |files|] == FileEntries(files, rel, indent).copies
  {
    var listed := Includes(node, Base(dir));
    var files := Sort(MdList(node, dir, Base(dir)));
    var head := Header(node, dir, rel, indent, listed).copies;
    WalkNodeCopies(node, dir, rel, indent);
    FileEntriesCount(files, rel, indent);
    assert |head| == if HasReadme(node) then 1 else 0;
    MiddlePart(WalkNode(node, dir, rel, indent).copies, head, FileEntries(files, rel, indent).copies,
               [], ChildrenTrace(node, dir, rel, indent).copies);
  }

  /** After the file lines: one blank line exactly when the directory line was written,
      then the walks of the sub-directories. */
  lemma BlankThenChildren(node: Node, dir: string, rel: string, indent: string)
    requires !HasPrefix(dir, DestDir)
    ensures var t := WalkNode(node, dir, rel, indent);
      var listed := Includes(node, Base(dir));
      var k := |MdList(node, dir, Base(dir))|;
      var h := if listed then 1 else 0;
      |t.lines| == 2 * h + k + |ChildrenTrace(node, dir, rel, indent).lines| &&
      (listed ==> t.lines[1 + k] == Blank) &&
      t.lines[2 * h + k..] == ChildrenTrace(node, dir, rel, indent).lines
  {
    var listed := Includes(node, Base(dir));
    var collected := MdList(node, dir, Base(dir));
    var files := Sort(collected);
    assert |files| == |multiset(files)| == |collected|;
    var head := Header(node, dir, rel, indent, listed).lines;
    var entries := FileEntries(files, rel, indent).lines;
    var blank := if listed then [Blank] else [];
    var rest := ChildrenTrace(node, dir, rel, indent).lines;
    FileEntriesCount(files, rel, indent);
    WalkNodeParts(node, dir, rel, indent);
    var lines := head + entries + blank + rest;
    assert WalkNode(node, dir, rel, indent).lines == lines;
    assert lines == (head + entries) + blank + rest;
    assert lines[|head + entries| + |blank|..] == rest;
  }

  // ----- the docs/src guard -----

  /** Every directory whose path starts with "docs/src" is skipped, whatever it holds:
      no line and no copy. */
  lemma GuardSkips(fs: Node, dir: string, rel: string, indent: string)
    requires HasPrefix(dir, DestDir)
    ensures WalkAt(fs, dir, rel, indent) == Quiet
  {
  }

  /** The guard is a plain string-prefix test: a sibling such as docs/srcfoo is skipped
      as well, whatever it holds. */
  lemma GuardSkipsPrefix(fs: Node, rel: string, indent: string)
    ensures HasPrefix("docs/srcfoo", DestDir) && Base("docs/srcfoo") != "src"
    ensures WalkAt(fs, "docs/srcfoo", rel, indent) == Quiet
  {
    GuardSkips(fs, "docs/srcfoo", rel, indent);
    assert "docs/srcfoo"[..|DestDir|] == DestDir;
    assert LastIndexOf("docs/srcfoo", '/') == 4;
  }

  // ----- the sub-directories of one directory -----

  /** walkDir visits the sub-directories in strictly ascending name order: exactly the
      entries that are directories and whose name is not ignored. */
  lemma SubdirOrder(ch: map<string, Node>)
    ensures var kids := Descend(ch, SortedNames(ch.Keys));
      StrictlySorted(kids) &&
      forall n :: n in kids <==> n in ch && ch[n].Dir? && n !in IgnoredDirs
  {
    DescendSorted(ch, SortedNames(ch.Keys));
  }

  // ----- indentation -----

  /** An mdBook nesting prefix: whole pairs of spaces. */
  predicate Pairs(s: string) {
    |s| % 2 == 0 && forall i :: 0 <= i < |s| ==> s[i] == ' '
  }

  /** Every list item of `lines` is indented by whole pairs of spaces, no less than `indent`. */
  predicate IndentedFrom(lines: seq<Line>, indent: string) {
    forall l :: l in lines && l.Entry? ==> Pairs(l.indent) && |indent| <= |l.indent|
  }

  lemma IndentedThen(a: seq<Line>, b: seq<Line>, indent: string)
    requires IndentedFrom(a, indent) && IndentedFrom(b, indent)
    ensures IndentedFrom(a + b, indent)
  {
  }

  lemma {:induction false} FileIndents(files: seq<string>, rel: string, indent: string)
    requires Pairs(indent)
    ensures IndentedFrom(FileEntries(files, rel, indent).lines, indent)
    decreases |files|
  {
    if files != [] {
      FileIndents(files[..|files| - 1], rel, indent);
      var e := FileEntry(files[|files| - 1], rel, indent);
      assert Pairs(e.lines[0].indent);
      IndentedThen(FileEntries(files[..|files| - 1], rel, indent).lines, e.lines, indent);
    }
  }

  lemma {:induction false} WalkIndents(node: Node, dir: string, rel: string, indent: string)
    requires Pairs(indent)
    ensures IndentedFrom(WalkNode(node, dir, rel, indent).lines, indent)
    decreases node, 2
  {
    if !HasPrefix(dir, DestDir) {
      var listed := Includes(node, Base(dir));
      var files := Sort(MdList(node, dir, Base(dir)));
      var head := Header(node, dir, rel, indent, listed).lines;
      var entries := FileEntries(files, rel, indent).lines;
      var blank := if listed then [Blank] else [];
      var rest := ChildrenTrace(node, dir, rel, indent).lines;
      FileIndents(files, rel, indent);
      ChildrenIndents(node, dir, rel, indent);
      WalkNodeParts(node, dir, rel, indent);
      IndentedThen(head, entries, indent);
      IndentedThen(head + entries, blank, indent);
      IndentedThen(head + entries + blank, rest, indent);
    }
  }

  lemma {:induction false} ChildrenIndents(node: Node, dir: string, rel: string, indent: string)
    requires Pairs(indent)
    ensures IndentedFrom(ChildrenTrace(node, dir, rel, indent).lines, indent)
    decreases node, 1
  {
    match node
    case File(_) =>
    case Dir(ch) =>
      WalkChildrenIndents(node, dir, rel, indent, Descend(ch, SortedNames(ch.Keys)));
  }

  lemma {:induction false} WalkChildrenIndents(parent: Node, dir: string, rel: string, indent: string, names: seq<string>)
    requires parent.Dir?
    requires forall i :: 0 <= i < |names| ==> names[i] in parent.children
    requires Pairs(indent)
    ensures IndentedFrom(WalkChildren(parent, dir, rel, indent, names).lines, indent)
    decreases parent, 0, |names|
  {
    if names != [] {
      var n := names[|names| - 1];
      var init := names[..|names| - 1];
      WalkChildrenIndents(parent, dir, rel, indent, init);
      assert Pairs(indent + "  ");
      WalkIndents(parent.children[n], JoinPath(dir, n), JoinPath(rel, n), indent + "  ");
      IndentedThen(WalkChildren(parent, dir, rel, indent, init).lines,
                   WalkNode(parent.children[n], JoinPath(dir, n), JoinPath(rel, n), indent + "  ").lines, indent);
    }
  }

  lemma {:induction false} WalkTopIndents(fs: Node, names: seq<string>)
    ensures IndentedFrom(WalkTop(fs, names).lines, "")
    decreases |names|
  {
    if names != [] {
      var n := names[|names| - 1];
      WalkTopIndents(fs, names[..|names| - 1]);
      WalkIndents(NodeAt(fs, JoinPath(SourceDir, n)), JoinPath(SourceDir, n), n, "");
      IndentedThen(WalkTop(fs, names[..|names| - 1]).lines, WalkAt(fs, JoinPath(SourceDir, n), n, "").lines, "");
    }
  }

  /** Every list item of the summary is indented by whole pairs of spaces, so mdBook
      reads it as a nesting level. */
  lemma IndexIndents(fs: Node)
    ensures forall l :: l in IndexTrace(fs).lines && l.Entry? ==> Pairs(l.indent)
  {
    var intro := JoinPath(SourceDir, FirstChapter);
    if Exists(fs, intro) {
      WalkIndents(NodeAt(fs, intro), intro, FirstChapter, "");
    }
    WalkTopIndents(fs, TopLevel(fs));
    IndentedThen(FirstChapterTrace(fs).lines, WalkTop(fs, TopLevel(fs)).lines, "");
  }

  // ----- trees without Markdown -----

  /** No entry anywhere below `node`, file or directory, has a Markdown name. */
  predicate MarkdownFree(node: Node) {
    match node
    case File(_) => true
    case Dir(ch) => forall n :: n in ch ==> !IsMarkdownName(n) && MarkdownFree(ch[n])
  }

  lemma ReadmeIsMarkdown()
    ensures IsMarkdownName(ReadmeName)
  {
    assert ToLower(ReadmeName) == "readme.md";
  }

  lemma {:induction false} NoMarkdownFound(node: Node, name: string)
    requires MarkdownFree(node) && !IsMarkdownName(name)
    ensures !Includes(node, name)
    decreases node
  {
    ReadmeIsMarkdown();
    match node
    case File(_) =>
    case Dir(ch) =>
      forall n | n in ch ensures !AnyMarkdown(ch[n], n) {
        NoMarkdownFound(ch[n], n);
      }
  }

  lemma {:induction false} WalkQuiet(node: Node, dir: string, rel: string, indent: string)
    requires WellFormed(node) && MarkdownFree(node) && !IsMarkdownName(Base(dir))
    ensures WalkNode(node, dir, rel, indent) == Quiet
    decreases node, 2
  {
    if !HasPrefix(dir, DestDir) {
      NoMarkdownFound(node, Base(dir));
      if MdList(node, dir, Base(dir)) != [] {
        MdListMarkdown(node, dir, Base(dir));
      }
      var none: seq<string> := [];
      assert Sort(none) == [];
      ChildrenQuiet(node, dir, rel, indent);
    }
  }

  lemma {:induction false} ChildrenQuiet(node: Node, dir: string, rel: string, indent: string)
    requires WellFormed(node) && MarkdownFree(node)
    ensures ChildrenTrace(node, dir, rel, indent) == Quiet
    decreases node, 1
  {
    match node
    case File(_) =>
    case Dir(ch) =>
      WalkChildrenQuiet(node, dir, rel, indent, Descend(ch, SortedNames(ch.Keys)));
  }

  lemma {:induction false} WalkChildrenQuiet(parent: Node, dir: string, rel: string, indent: string, names: seq<string>)
    requires parent.Dir? && WellFormed(parent) && MarkdownFree(parent)
    requires forall i :: 0 <= i < |names| ==> names[i] in parent.children
    ensures WalkChildren(parent, dir, rel, indent, names) == Quiet
    decreases parent, 0, |names|
  {
    if names != [] {
      var n := names[|names| - 1];
      WalkChildrenQuiet(parent, dir, rel, indent, names[..|names| - 1]);
      ResolveChild(parent, dir, n);
      WalkQuiet(parent.children[n], JoinPath(dir, n), JoinPath(rel, n), indent + "  ");
      ThenQuiet(Quiet);
    }
  }

  /** A top-level entry of a Markdown-free docs directory writes nothing. */
  lemma TopQuiet(fs: Node, n: string)
    requires WellFormed(fs) && MarkdownFree(NodeAt(fs, SourceDir))
    requires n in ReadDirNames(fs, SourceDir)
    ensures WalkAt(fs, JoinPath(SourceDir, n), n, "") == Quiet
  {
    var docs := NodeAt(fs, SourceDir);
    DirFacts(fs, SourceDir);
    assert docs.Dir? && n in docs.children;
    ChildFacts(fs, SourceDir, n);
    ResolveChild(fs, SourceDir, n);
    WalkQuiet(docs.children[n], JoinPath(SourceDir, n), n, "");
  }

  lemma {:induction false} WalkTopQuiet(fs: Node, names: seq<string>)
    requires WellFormed(fs) && MarkdownFree(NodeAt(fs, SourceDir))
    requires forall n :: n in names ==> n in ReadDirNames(fs, SourceDir)
    ensures WalkTop(fs, names) == Quiet
    decreases |names|
  {
    if names != [] {
      var n := names[|names| - 1];
      WalkTopQuiet(fs, names[..|names| - 1]);
      TopQuiet(fs, n);
      ThenQuiet(Quiet);
    }
  }

  /** A docs tree without any Markdown name lists nothing and copies nothing: the
      summary is the "# Summary" line alone. */
  lemma MarkdownFreeDocs(fs: Node)
    requires WellFormed(fs) && MarkdownFree(NodeAt(fs, SourceDir))
    ensures IndexTrace(fs) == Quiet
  {
    var intro := JoinPath(SourceDir, FirstChapter);
    ResolveChild(fs, SourceDir, FirstChapter);
    if Exists(fs, intro) {
      DirFacts(fs, SourceDir);
      ChildFacts(fs, SourceDir, FirstChapter);
      assert !IsMarkdownName(FirstChapter);
      WalkQuiet(NodeAt(fs, intro), intro, FirstChapter, "");
    }
    TopLevelOrder(fs);
    WalkTopQuiet(fs, TopLevel(fs));
    ThenQuiet(Quiet);
  }

  // ----- the first chapter -----

  /** The first chapter's walk opens with its directory line. */
  lemma FirstChapterLine(fs: Node)
    requires WellFormed(fs) && HasReadme(NodeAt(fs, JoinPath(SourceDir, FirstChapter)))
    ensures var t := FirstChapterTrace(fs);
      |t.lines| > 0 && t.lines[0] == Entry("", Prettify(FirstChapter), JoinPath(FirstChapter, ReadmeName))
  {
    var intro := JoinPath(SourceDir, FirstChapter);
    var node := NodeAt(fs, intro);
    assert Exists(fs, intro);
    assert !HasPrefix(intro, DestDir) by {
      assert intro == "docs/introduction";
      assert intro[..|DestDir|][5] != DestDir[5];
    }
    SplitJoinPath(SourceDir, FirstChapter);
    DirectoryLine(node, intro, FirstChapter, "");
  }

  lemma IntroductionReadmeLink()
    ensures JoinPath(FirstChapter, ReadmeName) == "introduction/README.md"
  {
  }

  lemma FirstOfThen(a: Trace, b: Trace)
    requires |a.lines| > 0
    ensures |a.Then(b).lines| > 0 && a.Then(b).lines[0] == a.lines[0]
  {
  }

  /** When docs/introduction holds a README.md, the summary's first item (right after
      "# Summary") is the Introduction chapter linked to introduction/README.md. */
  lemma FirstChapterFirst(fs: Node)
    requires WellFormed(fs) && HasReadme(NodeAt(fs, JoinPath(SourceDir, FirstChapter)))
    ensures |IndexTrace(fs).lines| > 0
    ensures IndexTrace(fs).lines[0] == Entry("", "Introduction", "introduction/README.md")
  {
    FirstChapterLine(fs);
    PrettifyIntroduction();
    IntroductionReadmeLink();
    FirstOfThen(FirstChapterTrace(fs), WalkTop(fs, TopLevel(fs)));
  }
}
