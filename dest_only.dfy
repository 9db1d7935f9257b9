// The generator writes only below docs/src: every copyFile destination of a run
// starts with "docs/src/", so any other path keeps what it held before.
module DestOnly {
  import opened GoStrings
  import opened Sorting
  import opened FileTree
  import opened Scanner
  import opened Summary

  /** Every copy of `t` writes below docs/src. */
  predicate InDest(t: Trace) {
    forall c :: c in t.copies ==> HasPrefix(c.dst, DestDir + "/")
  }

  lemma InDestThen(a: Trace, b: Trace)
    requires InDest(a) && InDest(b)
    ensures InDest(a.Then(b))
  {
    forall c | c in a.Then(b).copies ensures HasPrefix(c.dst, DestDir + "/") {
      if c !in a.copies {
        assert c in b.copies;
      }
    }
  }

  /** filepath.Join(destDir, rel, base) lies below docs/src. */
  lemma DestPath(rel: string, base: string)
    ensures HasPrefix(JoinPath(JoinPath(DestDir, rel), base), DestDir + "/")
  {
    var p := JoinPath(JoinPath(DestDir, rel), base);
    assert p == (DestDir + "/") + (rel + "/" + base);
    assert p[..|DestDir + "/"|] == DestDir + "/";
  }

  lemma {:induction false} FileEntriesInDest(files: seq<string>, rel: string, indent: string)
    ensures InDest(FileEntries(files, rel, indent))
    decreases |files|
  {
    if files != [] {
      var f := files[|files| - 1];
      FileEntriesInDest(files[..|files| - 1], rel, indent);
      DestPath(rel, Base(f));
      InDestThen(FileEntries(files[..|files| - 1], rel, indent), FileEntry(f, rel, indent));
    }
  }

  lemma HeaderInDest(node: Node, dir: string, rel: string, indent: string, listed: bool)
    ensures InDest(Header(node, dir, rel, indent, listed))
  {
    DestPath(rel, ReadmeName);
  }

  lemma {:induction false} WalkInDest(node: Node, dir: string, rel: string, indent: string)
    ensures InDest(WalkNode(node, dir, rel, indent))
    decreases node, 2
  {
    if !HasPrefix(dir, DestDir) {
      var listed := Includes(node, Base(dir));
      var head := Header(node, dir, rel, indent, listed);
      var entries := FileEntries(Sort(MdList(node, dir, Base(dir))), rel, indent);
      var blank := if listed then Trace([Blank], []) else Quiet;
      HeaderInDest(node, dir, rel, indent, listed);
      FileEntriesInDest(Sort(MdList(node, dir, Base(dir))), rel, indent);
      ChildrenInDest(node, dir, rel, indent);
      InDestThen(head, entries);
      InDestThen(head.Then(entries), blank);
      InDestThen(head.Then(entries).Then(blank), ChildrenTrace(node, dir, rel, indent));
    }
  }

  lemma {:induction false} ChildrenInDest(node: Node, dir: string, rel: string, indent: string)
    ensures InDest(ChildrenTrace(node, dir, rel, indent))
    decreases node, 1
  {
    match node
    case File(_) =>
    case Dir(ch) =>
      WalkChildrenInDest(node, dir, rel, indent, Descend(ch, SortedNames(ch.Keys)));
  }

  lemma {:induction false} WalkChildrenInDest(parent: Node, dir: string, rel: string, indent: string,
                                              names: seq<string>)
    requires parent.Dir?
    requires forall i :: 0 <= i < |names| ==> names[i] in parent.children
    ensures InDest(WalkChildren(parent, dir, rel, indent, names))
    decreases parent, 0, |names|
  {
    if names != [] {
      var n := names[|names| - 1];
      WalkChildrenInDest(parent, dir, rel, indent, names[..|names| - 1]);
      WalkInDest(parent.children[n], JoinPath(dir, n), JoinPath(rel, n), indent + "  ");
      InDestThen(WalkChildren(parent, dir, rel, indent, names[..|names| - 1]),
                 WalkNode(parent.children[n], JoinPath(dir, n), JoinPath(rel, n), indent + "  "));
    }
  }

  lemma {:induction false} WalkTopInDest(fs: Node, names: seq<string>)
    ensures InDest(WalkTop(fs, names))
    decreases |names|
  {
    if names != [] {
      var n := names[|names| - 1];
      WalkTopInDest(fs, names[..|names| - 1]);
      WalkInDest(NodeAt(fs, JoinPath(SourceDir, n)), JoinPath(SourceDir, n), n, "");
      InDestThen(WalkTop(fs, names[..|names| - 1]), WalkAt(fs, JoinPath(SourceDir, n), n, ""));
    }
  }

  /** Every copy of a whole run writes below docs/src. */
  lemma IndexInDest(fs: Node)
    ensures InDest(IndexTrace(fs))
  {
    var intro := JoinPath(SourceDir, FirstChapter);
    WalkInDest(NodeAt(fs, intro), intro, FirstChapter, "");
    WalkTopInDest(fs, TopLevel(fs));
    InDestThen(FirstChapterTrace(fs), WalkTop(fs, TopLevel(fs)));
  }

  /** Copies to other destinations leave `p` as it was. */
  lemma {:induction false} ApplyCopiesFrame(fs: Node, mirror: map<string, Bytes>, copies: seq<Copy>, p: string)
    requires forall i :: 0 <= i < |copies| ==> copies[i].dst != p
    ensures var after := ApplyCopies(fs, mirror, copies);
      (p in after <==> p in mirror) && (p in mirror ==> after[p] == mirror[p])
    decreases |copies|
  {
    if copies != [] {
      ApplyCopiesFrame(fs, mirror, copies[..|copies| - 1], p);
    }
  }

  /** A path outside docs/src holds after generateIndex exactly what it held before. */
  lemma OutsideDestUnchanged(fs: Node, mirror: map<string, Bytes>, p: string)
    requires !HasPrefix(p, DestDir + "/")
    ensures var after := ApplyCopies(fs, mirror, IndexTrace(fs).copies);
      (p in after <==> p in mirror) && (p in mirror ==> after[p] == mirror[p])
  {
    var copies := IndexTrace(fs).copies;
    IndexInDest(fs);
    forall i | 0 <= i < |copies| ensures copies[i].dst != p {
      assert copies[i] in copies;
    }
    ApplyCopiesFrame(fs, mirror, copies, p);
  }
}
