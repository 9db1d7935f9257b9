// The generator itself: walkDir and generateIndex append lines to the summary
// file and copy Markdown files under docs/src, one step at a time.
module Index {
  import opened GoStrings
  import opened Sorting
  import opened FileTree
  import opened Titles
  import opened Scanner
  import opened Summary

  datatype CopyError = OpenFailed | ReadFailed

  /** What copyFile(src, _) returns: os.Open fails on a missing entry; a directory
      opens but cannot be read. */
  function CopyResult(fs: Node, src: string): Option<CopyError> {
    match Resolve(fs, src)
    case None => Some(OpenFailed)
    case Some(File(_)) => None
    case Some(Dir(_)) => Some(ReadFailed)
  }

  datatype Outcome = Generated | Panicked(reason: SetupError)

  /** Walking the listed names of `dir` in the order sort.Slice leaves them is walking its children. */
  lemma ListingFacts(fs: Node, dir: string, rel: string, indent: string, done: Trace)
    requires WellFormed(fs)
    ensures var parent := AsDir(NodeAt(fs, dir));
      ReadDirNames(fs, dir) == SortedNames(parent.children.Keys) &&
      done.Then(WalkChildren(parent, dir, rel, indent, Descend(parent.children, SortedNames(parent.children.Keys)))) ==
      done.Then(ChildrenTrace(NodeAt(fs, dir), dir, rel, indent))
  {
    DirFacts(fs, dir);
  }

  /** The ignore test of walkDir and generateIndex: a linear search of the ignore list. */
  method IsIgnored(name: string) returns (skip: bool)
    ensures skip <==> name in IgnoredDirs
  {
    skip := false;
    for i := 0 to |IgnoredDirs|
      invariant !skip && name !in IgnoredDirs[..i]
    {
      if name == IgnoredDirs[i] {
        skip := true;
        break;
      }
    }
  }

  /** The Markdown collector: filepath.WalkDir from `node` (found at `path` under the
      name `name`) with the callback of walkDir appending each collected path. */
  method CollectMarkdown(node: Node, path: string, name: string) returns (files: seq<string>)
    ensures files == MdList(node, path, name)
    decreases node
  {
    match node
    case File(_) =>
      files := if Collected(name) then [path] else [];
    case Dir(ch) =>
      var names := SortedNames(ch.Keys);
      files := [];
      for i := 0 to |names|
        invariant files == MdListAll(node, path, names[..i])
      {
        var n := names[i];
        var more := CollectMarkdown(ch[n], JoinPath(path, n), n);
        MdListAllStep(node, path, names, i);
        files := files + more;
      }
      assert names[..|names|] == names;
  }

  class IndexBuilder {
    /** The source tree, rooted at the working directory. */
    const fs: Node
    /** The lines written to docs/src/SUMMARY.md so far. */
    var summary: seq<string>
    /** The files under docs/src, by path. */
    var mirror: map<string, Bytes>

    constructor (fs: Node, dest: map<string, Bytes>)
      requires WellFormed(fs)
      ensures this.fs == fs && summary == [] && mirror == dest
    {
      this.fs := fs;
      summary := [];
      mirror := dest;
    }

    /** The summary and the destination files are those of `lines0` and `mirror0`
        followed by the effects of `t`. */
    ghost predicate Wrote(lines0: seq<string>, mirror0: map<string, Bytes>, t: Trace)
      reads this
    {
      summary == lines0 + RenderAll(t.lines) && mirror == ApplyCopies(fs, mirror0, t.copies)
    }

    /** os.ReadDir(dir) followed by sort.Slice by name: the listing is already in
        ascending order, so sorting leaves it as it is. */
    method ReadSorted(dir: string) returns (names: seq<string>)
      ensures names == ReadDirNames(fs, dir)
    {
      names := ReadDirNames(fs, dir);
      ghost var listed := names;
      names := SortStrings(names);
      SortedListing(names, listed);
    }

    /** The Markdown files of walkDir: collected under `dir`, then sorted with sort.Strings. */
    method SortedMarkdown(dir: string) returns (files: seq<string>)
      ensures files == Sort(MdList(NodeAt(fs, dir), dir, Base(dir)))
    {
      files := CollectMarkdown(NodeAt(fs, dir), dir, Base(dir));
      ghost var collected := files;
      files := SortStrings(files);
      SortIsSorted(collected);
      SortedUnique(files, Sort(collected));
    }

    /** copyFile(src, dst). */
    method CopyFile(src: string, dst: string) returns (err: Option<CopyError>)
      modifies this`mirror
      ensures err == CopyResult(fs, src)
      ensures err.None? ==> mirror == old(mirror)[dst := Resolve(fs, src).value.content]
      ensures err == Some(OpenFailed) ==> mirror == old(mirror)
      ensures err == Some(ReadFailed) ==> mirror == old(mirror)[dst := []]
      ensures mirror == Copied(fs, old(mirror), Copy(src, dst))
    {
      match Resolve(fs, src)
      case None =>
        err := Some(OpenFailed);
      case Some(File(content)) =>
        mirror := mirror[dst := content];
        err := None;
      case Some(Dir(_)) =>
        mirror := mirror[dst := []];
        err := Some(ReadFailed);
    }

    /** Appends one line and performs at most one copy, extending the trace by `step`. */
    method Emit(line: Line, copy: Option<Copy>, ghost lines0: seq<string>, ghost mirror0: map<string, Bytes>, ghost done: Trace)
      requires Wrote(lines0, mirror0, done)
      modifies this`summary, this`mirror
      ensures Wrote(lines0, mirror0, done.Then(Trace([line], if copy.Some? then [copy.value] else [])))
    {
      summary := summary + [Render(line)];
      var step := Trace([line], if copy.Some? then [copy.value] else []);
      if copy.Some? {
        var _ := CopyFile(copy.value.src, copy.value.dst);
        assert step.copies == [] + [copy.value];
        assert ApplyCopies(fs, old(mirror), step.copies) == mirror;
      }
      TraceThen(fs, lines0, mirror0, done, step);
    }

    /** The loop of walkDir over the sorted Markdown files. */
    method WriteFiles(mdFiles: seq<string>, relativePath: string, indent: string,
                      ghost lines0: seq<string>, ghost mirror0: map<string, Bytes>, ghost done: Trace)
      requires Wrote(lines0, mirror0, done)
      modifies this`summary, this`mirror
      ensures Wrote(lines0, mirror0, done.Then(FileEntries(mdFiles, relativePath, indent)))
    {
      ThenQuiet(done);
      for i := 0 to |mdFiles|
        invariant Wrote(lines0, mirror0, done.Then(FileEntries(mdFiles[..i], relativePath, indent)))
      {
        var base := Base(mdFiles[i]);
        var title := Prettify(TrimSuffix(base, ".md"));
        Emit(Entry(indent + "  ", title, JoinPath(relativePath, base)),
             Some(Copy(mdFiles[i], JoinPath(JoinPath(DestDir, relativePath), base))),
             lines0, mirror0, done.Then(FileEntries(mdFiles[..i], relativePath, indent)));
        FileEntriesStep(done, mdFiles, i, relativePath, indent);
      }
      assert mdFiles[..|mdFiles|] == mdFiles;
    }

    /** Turn `i` of walkDir's loop over the sorted entries `names` of `currentDir`:
        skip files and ignored names, walk the other directories one level deeper. */
    method VisitEntry(currentDir: string, relativePath: string, indent: string, names: seq<string>, i: nat,
                      ghost lines0: seq<string>, ghost mirror0: map<string, Bytes>, ghost done: Trace)
      requires WellFormed(fs)
      requires i < |names|
      requires forall j :: 0 <= j < |names| ==> names[j] in AsDir(NodeAt(fs, currentDir)).children
      requires Wrote(lines0, mirror0, done.Then(WalkChildren(AsDir(NodeAt(fs, currentDir)), currentDir, relativePath, indent,
                 Descend(AsDir(NodeAt(fs, currentDir)).children, names[..i]))))
      modifies this`summary, this`mirror
      ensures Wrote(lines0, mirror0, done.Then(WalkChildren(AsDir(NodeAt(fs, currentDir)), currentDir, relativePath, indent,
                Descend(AsDir(NodeAt(fs, currentDir)).children, names[..i + 1]))))
      decreases NodeAt(fs, currentDir), 0
    {
      ghost var parent := AsDir(NodeAt(fs, currentDir));
      ghost var before := done.Then(WalkChildren(parent, currentDir, relativePath, indent, Descend(parent.children, names[..i])));
      WalkChildrenStep(done, parent, currentDir, relativePath, indent, names, i);
      var name := names[i];
      ChildFacts(fs, currentDir, name);
      if !IsDirAt(fs, JoinPath(currentDir, name)) {
        return;
      }
      var skip := IsIgnored(name);
      if skip {
        return;
      }
      WalkDir(JoinPath(currentDir, name), JoinPath(relativePath, name), indent + "  ");
      TraceThen(fs, lines0, mirror0, before,
                WalkAt(fs, JoinPath(currentDir, name), JoinPath(relativePath, name), indent + "  "));
    }

    /** The loop of walkDir over the sorted entries `names` of `currentDir`. */
    method VisitEntries(currentDir: string, relativePath: string, indent: string, names: seq<string>,
                        ghost lines0: seq<string>, ghost mirror0: map<string, Bytes>, ghost done: Trace)
      requires WellFormed(fs)
      requires forall j :: 0 <= j < |names| ==> names[j] in AsDir(NodeAt(fs, currentDir)).children
      requires Wrote(lines0, mirror0, done)
      modifies this`summary, this`mirror
      ensures Wrote(lines0, mirror0, done.Then(WalkChildren(AsDir(NodeAt(fs, currentDir)), currentDir, relativePath, indent,
                Descend(AsDir(NodeAt(fs, currentDir)).children, names))))
      decreases NodeAt(fs, currentDir), 1
    {
      ghost var parent := AsDir(NodeAt(fs, currentDir));
      ThenQuiet(done);
      for i := 0 to |names|
        invariant Wrote(lines0, mirror0,
          done.Then(WalkChildren(parent, currentDir, relativePath, indent, Descend(parent.children, names[..i]))))
      {
        VisitEntry(currentDir, relativePath, indent, names, i, lines0, mirror0, done);
      }
      assert names[..|names|] == names;
    }

    /** os.ReadDir(currentDir), sorted, and the walk of its entries. */
    method WalkSubdirs(currentDir: string, relativePath: string, indent: string,
                       ghost lines0: seq<string>, ghost mirror0: map<string, Bytes>, ghost done: Trace)
      requires WellFormed(fs)
      requires Wrote(lines0, mirror0, done)
      modifies this`summary, this`mirror
      ensures Wrote(lines0, mirror0, done.Then(ChildrenTrace(NodeAt(fs, currentDir), currentDir, relativePath, indent)))
      decreases NodeAt(fs, currentDir), 2
    {
      ListingFacts(fs, currentDir, relativePath, indent, done);
      var subdirs := ReadSorted(currentDir);
      VisitEntries(currentDir, relativePath, indent, subdirs, lines0, mirror0, done);
    }

    /** The directory line of walkDir, and the copy of its README.md. */
    method WriteHeader(currentDir: string, relativePath: string, indent: string, listed: bool,
                       ghost lines0: seq<string>, ghost mirror0: map<string, Bytes>)
      requires WellFormed(fs)
      requires Wrote(lines0, mirror0, Quiet)
      modifies this`summary, this`mirror
      ensures Wrote(lines0, mirror0, Header(NodeAt(fs, currentDir), currentDir, relativePath, indent, listed))
    {
      DirFacts(fs, currentDir);
      ghost var step := Header(NodeAt(fs, currentDir), currentDir, relativePath, indent, listed);
      ThenQuiet(step);
      var readmePath := JoinPath(currentDir, ReadmeName);
      if Exists(fs, readmePath) {
        var dirName := Prettify(Base(currentDir));
        Emit(Entry(indent, dirName, JoinPath(relativePath, ReadmeName)),
             Some(Copy(readmePath, JoinPath(JoinPath(DestDir, relativePath), ReadmeName))),
             lines0, mirror0, Quiet);
      } else if listed {
        var dirName := Prettify(Base(currentDir));
        Emit(Entry(indent, dirName, ""), None, lines0, mirror0, Quiet);
      }
    }

    /** walkDir(currentDir, relativePath, indent). */
    method WalkDir(currentDir: string, relativePath: string, indent: string)
      requires WellFormed(fs)
      modifies this`summary, this`mirror
      ensures summary == old(summary) + RenderAll(WalkAt(fs, currentDir, relativePath, indent).lines)
      ensures mirror == ApplyCopies(fs, old(mirror), WalkAt(fs, currentDir, relativePath, indent).copies)
      decreases NodeAt(fs, currentDir), 3
    {
      ghost var lines0, mirror0 := summary, mirror;
      assert Wrote(lines0, mirror0, Quiet);
      if HasPrefix(currentDir, DestDir) {
        return;
      }
      var node := NodeAt(fs, currentDir);
      DirFacts(fs, currentDir);

      var listed := HasMarkdownFiles(fs, currentDir);
      WriteHeader(currentDir, relativePath, indent, listed, lines0, mirror0);
      ghost var done := Header(node, currentDir, relativePath, indent, listed);

      var mdFiles := SortedMarkdown(currentDir);
      WriteFiles(mdFiles, relativePath, indent, lines0, mirror0, done);
      done := done.Then(FileEntries(mdFiles, relativePath, indent));

      if listed {
        Emit(Blank, None, lines0, mirror0, done);
      } else {
        ThenQuiet(done);
      }
      done := done.Then(if listed then Trace([Blank], []) else Quiet);

      WalkSubdirs(currentDir, relativePath, indent, lines0, mirror0, done);
    }

    /** Turn `i` of generateIndex's loop over the sorted entries `names` of docs:
        skip files, the first chapter and ignored names, walk the other directories. */
    method VisitTop(names: seq<string>, i: nat,
                    ghost lines0: seq<string>, ghost mirror0: map<string, Bytes>, ghost done: Trace)
      requires WellFormed(fs)
      requires i < |names|
      requires Wrote(lines0, mirror0, done.Then(WalkTop(fs, KeepTop(fs, names[..i]))))
      modifies this`summary, this`mirror
      ensures Wrote(lines0, mirror0, done.Then(WalkTop(fs, KeepTop(fs, names[..i + 1]))))
    {
      ghost var before := done.Then(WalkTop(fs, KeepTop(fs, names[..i])));
      WalkTopStep(done, fs, names, i);
      var name := names[i];
      if !IsDirAt(fs, JoinPath(SourceDir, name)) || name == FirstChapter {
        return;
      }
      var skip := IsIgnored(name);
      if skip {
        return;
      }
      WalkDir(JoinPath(SourceDir, name), name, "");
      TraceThen(fs, lines0, mirror0, before, WalkAt(fs, JoinPath(SourceDir, name), name, ""));
    }

    /** The first chapter, docs/introduction, walked ahead of the others when it exists. */
    method WalkFirstChapter()
      requires WellFormed(fs)
      modifies this`summary, this`mirror
      ensures summary == old(summary) + RenderAll(FirstChapterTrace(fs).lines)
      ensures mirror == ApplyCopies(fs, old(mirror), FirstChapterTrace(fs).copies)
    {
      var intro := JoinPath(SourceDir, FirstChapter);
      if Exists(fs, intro) {
        WalkDir(intro, FirstChapter, "");
      } else {
        assert summary + RenderAll([]) == summary;
      }
    }

    /** The loop of generateIndex over the sorted entries of docs. */
    method WalkTopLevel(ghost lines0: seq<string>, ghost mirror0: map<string, Bytes>, ghost first: Trace)
      requires WellFormed(fs) && Wrote(lines0, mirror0, first)
      modifies this`summary, this`mirror
      ensures Wrote(lines0, mirror0, first.Then(WalkTop(fs, TopLevel(fs))))
    {
      var entries := ReadSorted(SourceDir);
      ThenQuiet(first);
      for i := 0 to |entries|
        invariant Wrote(lines0, mirror0, first.Then(WalkTop(fs, KeepTop(fs, entries[..i]))))
      {
        VisitTop(entries, i, lines0, mirror0, first);
      }
      assert entries[..|entries|] == entries;
    }

    /** generateIndex(): create docs/src and the summary file (panicking when either
        fails), write the heading, walk the first chapter, then every other top-level
        directory in name order. */
    method GenerateIndex() returns (outcome: Outcome)
      requires WellFormed(fs)
      modifies this`summary, this`mirror
      ensures SetupFailure(fs).Some? ==>
        outcome == Panicked(SetupFailure(fs).value) && summary == old(summary) && mirror == old(mirror)
      ensures SetupFailure(fs).None? ==>
        outcome == Generated &&
        summary == [SummaryHeading] + RenderAll(IndexTrace(fs).lines) &&
        mirror == ApplyCopies(fs, old(mirror), IndexTrace(fs).copies)
    {
      var failure := SetupFailure(fs);
      if failure.Some? {
        outcome := Panicked(failure.value);
        return;
      }
      summary := [SummaryHeading];
      ghost var lines0, mirror0 := summary, mirror;
      WalkFirstChapter();
      WalkTopLevel(lines0, mirror0, FirstChapterTrace(fs));
      outcome := Generated;
    }
  }
}
