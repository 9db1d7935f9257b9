// Every link written into SUMMARY.md names a file that the same run mirrors into
// docs/src: mdBook, which builds from docs/src, finds each listed page.
module Mirroring {
  import opened GoStrings
  import opened Sorting
  import opened FileTree
  import opened Scanner
  import opened Summary
  import opened SummaryFacts

  /** Each linked line of `t` is matched by a copy in `t` that writes docs/src/<link>
      from an entry that exists. */
  predicate Backed(fs: Node, t: Trace) {
    forall l :: l in t.lines && l.Entry? && l.link != "" ==>
      exists c :: c in t.copies && c.dst == JoinPath(DestDir, l.link) && Exists(fs, c.src)
  }

  lemma BackedThen(fs: Node, a: Trace, b: Trace)
    requires Backed(fs, a) && Backed(fs, b)
    ensures Backed(fs, a.Then(b))
  {
    var t := a.Then(b);
    forall l | l in t.lines && l.Entry? && l.link != ""
      ensures exists c :: c in t.copies && c.dst == JoinPath(DestDir, l.link) && Exists(fs, c.src)
    {
      if l in a.lines {
        var c :| c in a.copies && c.dst == JoinPath(DestDir, l.link) && Exists(fs, c.src);
        assert c in t.copies;
      } else {
        var c :| c in b.copies && c.dst == JoinPath(DestDir, l.link) && Exists(fs, c.src);
        assert c in t.copies;
      }
    }
  }

  /** docs/src/<rel/base> is the destination <docs/src/rel>/base the copy writes. */
  lemma TargetOfLink(rel: string, base: string)
    ensures JoinPath(DestDir, JoinPath(rel, base)) == JoinPath(JoinPath(DestDir, rel), base)
  {
    assert DestDir + "/" + (rel + "/" + base) == (DestDir + "/" + rel) + "/" + base;
  }

  lemma {:induction false} FileEntriesBacked(fs: Node, files: seq<string>, rel: string, indent: string)
    requires forall f :: f in files ==> Exists(fs, f)
    ensures Backed(fs, FileEntries(files, rel, indent))
    decreases |files|
  {
    if files != [] {
      var f := files[|files| - 1];
      FileEntriesBacked(fs, files[..|files| - 1], rel, indent);
      TargetOfLink(rel, Base(f));
      var e := FileEntry(f, rel, indent);
      assert e.copies[0] in e.copies;
      BackedThen(fs, FileEntries(files[..|files| - 1], rel, indent), e);
    }
  }

  lemma HeaderBacked(fs: Node, dir: string, rel: string, indent: string, listed: bool)
    requires WellFormed(fs)
    ensures Backed(fs, Header(NodeAt(fs, dir), dir, rel, indent, listed))
  {
    var h := Header(NodeAt(fs, dir), dir, rel, indent, listed);
    if HasReadme(NodeAt(fs, dir)) {
      DirFacts(fs, dir);
      TargetOfLink(rel, ReadmeName);
      assert h.copies[0] in h.copies;
    }
  }

  /** The files listed under `dir` are entries of the tree. */
  lemma ListedFilesExist(fs: Node, dir: string)
    requires WellFormed(fs)
    ensures forall f :: f in Sort(MdList(NodeAt(fs, dir), dir, Base(dir))) ==> Exists(fs, f)
  {
    var node := NodeAt(fs, dir);
    var collected := MdList(node, dir, Base(dir));
    DirFacts(fs, dir);
    if Resolve(fs, dir).Some? {
      MdListResolves(fs, node, dir);
    } else {
      var none: set<string> := {};
      assert |SortedNames(none)| == 0;
      assert collected == [];
    }
    forall f | f in Sort(collected) ensures Exists(fs, f) {
      assert f in multiset(Sort(collected));
    }
  }

  lemma {:induction false} WalkBacked(fs: Node, node: Node, dir: string, rel: string, indent: string)
    requires WellFormed(fs) && node == NodeAt(fs, dir)
    ensures Backed(fs, WalkNode(node, dir, rel, indent))
    decreases node, 2
  {
    if !HasPrefix(dir, DestDir) {
      var listed := Includes(node, Base(dir));
      var head := Header(node, dir, rel, indent, listed);
      var entries := FileEntries(Sort(MdList(node, dir, Base(dir))), rel, indent);
      var blank := if listed then Trace([Blank], []) else Quiet;
      var rest := ChildrenTrace(node, dir, rel, indent);
      HeaderBacked(fs, dir, rel, indent, listed);
      ListedFilesExist(fs, dir);
      FileEntriesBacked(fs, Sort(MdList(node, dir, Base(dir))), rel, indent);
      ChildrenBacked(fs, node, dir, rel, indent);
      BackedThen(fs, head, entries);
      BackedThen(fs, head.Then(entries), blank);
      BackedThen(fs, head.Then(entries).Then(blank), rest);
    }
  }

  lemma {:induction false} ChildrenBacked(fs: Node, node: Node, dir: string, rel: string, indent: string)
    requires WellFormed(fs) && node == NodeAt(fs, dir)
    ensures Backed(fs, ChildrenTrace(node, dir, rel, indent))
    decreases node, 1
  {
    match node
    case File(_) =>
    case Dir(ch) =>
      WalkChildrenBacked(fs, node, dir, rel, indent, Descend(ch, SortedNames(ch.Keys)));
  }

  lemma {:induction false} WalkChildrenBacked(fs: Node, parent: Node, dir: string, rel: string, indent: string,
                                              names: seq<string>)
    requires WellFormed(fs) && parent == NodeAt(fs, dir) && parent.Dir?
    requires forall i :: 0 <= i < |names| ==> names[i] in parent.children
    ensures Backed(fs, WalkChildren(parent, dir, rel, indent, names))
    decreases parent, 0, |names|
  {
    if names != [] {
      var n := names[|names| - 1];
      var init := names[..|names| - 1];
      WalkChildrenBacked(fs, parent, dir, rel, indent, init);
      ChildFacts(fs, dir, n);
      WalkBacked(fs, parent.children[n], JoinPath(dir, n), JoinPath(rel, n), indent + "  ");
      BackedThen(fs, WalkChildren(parent, dir, rel, indent, init),
                 WalkNode(parent.children[n], JoinPath(dir, n), JoinPath(rel, n), indent + "  "));
    }
  }

  lemma {:induction false} WalkTopBacked(fs: Node, names: seq<string>)
    requires WellFormed(fs)
    ensures Backed(fs, WalkTop(fs, names))
    decreases |names|
  {
    if names != [] {
      var n := names[|names| - 1];
      WalkTopBacked(fs, names[..|names| - 1]);
      WalkBacked(fs, NodeAt(fs, JoinPath(SourceDir, n)), JoinPath(SourceDir, n), n, "");
      BackedThen(fs, WalkTop(fs, names[..|names| - 1]), WalkAt(fs, JoinPath(SourceDir, n), n, ""));
    }
  }

  /** A copy whose source exists leaves its destination in the mirror; no copy removes one. */
  lemma {:induction false} CopyLands(fs: Node, mirror: map<string, Bytes>, copies: seq<Copy>, c: Copy)
    requires c in copies && Exists(fs, c.src)
    ensures c.dst in ApplyCopies(fs, mirror, copies)
    decreases |copies|
  {
    var init := copies[..|copies| - 1];
    if c != copies[|copies| - 1] {
      assert copies == init + [copies[|copies| - 1]];
      CopyLands(fs, mirror, init, c);
    }
  }

  /** After generateIndex has run, every link in the summary (past the heading) names a
      path under docs/src that `mirror` holds. `mirror` is a flat map, so a path there may
      also be a prefix of another path there. */
  lemma SummaryLinksMirrored(fs: Node, mirror: map<string, Bytes>)
    requires WellFormed(fs)
    ensures var t := IndexTrace(fs);
      forall l :: l in t.lines && l.Entry? && l.link != "" ==>
        JoinPath(DestDir, l.link) in ApplyCopies(fs, mirror, t.copies)
  {
    var t := IndexTrace(fs);
    var intro := JoinPath(SourceDir, FirstChapter);
    if Exists(fs, intro) {
      WalkBacked(fs, NodeAt(fs, intro), intro, FirstChapter, "");
    }
    WalkTopBacked(fs, TopLevel(fs));
    BackedThen(fs, FirstChapterTrace(fs), WalkTop(fs, TopLevel(fs)));
    forall l | l in t.lines && l.Entry? && l.link != ""
      ensures JoinPath(DestDir, l.link) in ApplyCopies(fs, mirror, t.copies)
    {
      var c :| c in t.copies && c.dst == JoinPath(DestDir, l.link) && Exists(fs, c.src);
      CopyLands(fs, mirror, t.copies, c);
    }
  }
}
