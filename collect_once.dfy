// The Markdown collector of one walkDir call lists every file once: the paths it gathers
// are pairwise distinct, so the sorted listing is strictly ascending. (A nested file is
// still listed again by the collector of each walked ancestor.)
module CollectOnce {
  import opened GoStrings
  import opened Sorting
  import opened FileTree
  import opened Summary

  /** No path occurs twice. */
  predicate Distinct(s: seq<string>) {
    forall i, j :: 0 <= i < j < |s| ==> s[i] != s[j]
  }

  /** `p` is `base` itself or a path below it. */
  predicate Below(p: string, base: string) {
    p == base || HasPrefix(p, base + "/")
  }

  /** A directory with a single entry `n` collects exactly what that entry yields. */
  lemma MdListOneChild(n: string, child: Node, path: string, name: string)
    ensures MdList(Dir(map[n := child]), path, name) == MdList(child, JoinPath(path, n), n)
  {
    var node := Dir(map[n := child]);
    var names := SortedNames(node.children.Keys);
    assert names == [n] by {
      assert n in names;
    }
    assert names[..0] == [];
    assert MdListAll(node, path, names) ==
      MdListAll(node, path, names[..0]) + MdList(child, JoinPath(path, n), n);
  }

  /** x.md passes the collector's test. */
  lemma MarkdownExample()
    ensures Collected("x.md")
  {
    assert ToLower("x.md") == "x.md";
    assert "x.md"[1..] == ".md";
  }

  /** The collector of each walkDir call descends the whole sub-tree, so a nested file
      is collected both for its directory and for every ancestor: docs/guide/a/x.md is
      listed under guide and again under guide/a. */
  lemma NestedFileListedAgain(content: Bytes)
    ensures var inner := Dir(map["x.md" := File(content)]);
      MdList(Dir(map["a" := inner]), "docs/guide", "guide") == ["docs/guide/a/x.md"] &&
      MdList(inner, "docs/guide/a", "a") == ["docs/guide/a/x.md"]
  {
    var inner := Dir(map["x.md" := File(content)]);
    MarkdownExample();
    assert MdList(File(content), "docs/guide/a/x.md", "x.md") == ["docs/guide/a/x.md"];
    MdListOneChild("x.md", File(content), "docs/guide/a", "a");
    MdListOneChild("a", inner, "docs/guide", "guide");
    assert JoinPath("docs/guide", "a") == "docs/guide/a";
    assert JoinPath("docs/guide/a", "x.md") == "docs/guide/a/x.md";
  }

  /** What lying below `path`/`m` says about the characters of `p`. */
  lemma BelowAt(path: string, m: string, p: string)
    requires Below(p, JoinPath(path, m))
    ensures |p| >= |path| + 1 + |m|
    ensures p[..|path| + 1] == path + "/"
    ensures forall i :: 0 <= i < |m| ==> p[|path| + 1 + i] == m[i]
    ensures |p| > |path| + 1 + |m| ==> p[|path| + 1 + |m|] == '/'
  {
    var base := JoinPath(path, m);
    assert base == (path + "/") + m;
    if p != base {
      assert p[..|base| + 1] == base + "/";
      assert p[..|base|] == p[..|base| + 1][..|base|];
      assert p[..|base|] == base;
    }
    assert p[..|path| + 1] == p[..|base|][..|path| + 1];
    forall i | 0 <= i < |m| ensures p[|path| + 1 + i] == m[i] {
      assert p[|path| + 1 + i] == p[..|base|][|path| + 1 + i];
    }
  }

  /** A path below a child of `path` is a path below `path`. */
  lemma BelowChild(path: string, m: string, p: string)
    requires Below(p, JoinPath(path, m))
    ensures Below(p, path)
  {
    BelowAt(path, m, p);
  }

  /** A path lies below at most one entry of a directory: two entries that both hold
      it have the same name. */
  lemma SameChild(path: string, m: string, n: string, p: string)
    requires '/' !in m && '/' !in n
    requires Below(p, JoinPath(path, m)) && Below(p, JoinPath(path, n))
    ensures m == n
  {
    BelowAt(path, m, p);
    BelowAt(path, n, p);
  }

  lemma DistinctConcat(a: seq<string>, b: seq<string>)
    requires Distinct(a) && Distinct(b)
    requires forall x :: x in a ==> x !in b
    ensures Distinct(a + b)
  {
    forall i, j | 0 <= i < j < |a + b| ensures (a + b)[i] != (a + b)[j] {
      if i < |a| && j >= |a| {
        assert (a + b)[i] in a;
        assert (a + b)[j] == b[j - |a|];
      }
    }
  }

  /** Every path collected from `node`, called `name`, at `path` lies below `path`, and
      none is collected twice. */
  lemma {:induction false} MdListDistinct(node: Node, path: string, name: string)
    requires WellFormed(node)
    ensures Distinct(MdList(node, path, name))
    ensures forall p :: p in MdList(node, path, name) ==> Below(p, path)
    decreases node, 1
  {
    match node
    case File(_) =>
    case Dir(ch) =>
      var names := SortedNames(ch.Keys);
      MdListAllDistinct(node, path, names);
      forall p | p in MdList(node, path, name) ensures Below(p, path) {
        var k :| 0 <= k < |names| && Below(p, JoinPath(path, names[k]));
        BelowChild(path, names[k], p);
      }
  }

  /** The children named `names`, each distinct, yield distinct paths, each below the
      child it came from. */
  lemma {:induction false} MdListAllDistinct(parent: Node, path: string, names: seq<string>)
    requires parent.Dir? && WellFormed(parent)
    requires forall i :: 0 <= i < |names| ==> names[i] in parent.children
    requires StrictlySorted(names)
    ensures Distinct(MdListAll(parent, path, names))
    ensures forall p :: p in MdListAll(parent, path, names) ==>
      exists k :: 0 <= k < |names| && Below(p, JoinPath(path, names[k]))
    decreases parent, 0, |names|
  {
    if names != [] {
      var init := names[..|names| - 1];
      var n := names[|names| - 1];
      var before := MdListAll(parent, path, init);
      var last := MdList(parent.children[n], JoinPath(path, n), n);
      MdListAllDistinct(parent, path, init);
      MdListDistinct(parent.children[n], JoinPath(path, n), n);
      forall p | p in before ensures p !in last {
        var k :| 0 <= k < |init| && Below(p, JoinPath(path, init[k]));
        if p in last {
          SameChild(path, init[k], n, p);
          LessIrreflexive(n);
        }
      }
      DistinctConcat(before, last);
      forall p | p in before + last
        ensures exists k :: 0 <= k < |names| && Below(p, JoinPath(path, names[k]))
      {
        if p in before {
          var k :| 0 <= k < |init| && Below(p, JoinPath(path, init[k]));
          assert names[k] == init[k];
        } else {
          assert names[|names| - 1] == n;
        }
      }
    }
  }

  /** A path occurs at most once in a sequence without repetitions. */
  lemma {:induction false} DistinctCount(s: seq<string>, x: string)
    requires Distinct(s)
    ensures multiset(s)[x] <= 1
    decreases |s|
  {
    if s != [] {
      assert s == [s[0]] + s[1..];
      DistinctCount(s[1..], x);
      if s[0] == x {
        assert x !in s[1..];
      }
    }
  }

  /** A path at two positions occurs at least twice. */
  lemma RepeatCount(t: seq<string>, i: nat, j: nat)
    requires i < j < |t| && t[i] == t[j]
    ensures multiset(t)[t[i]] >= 2
  {
    assert t == t[..j] + [t[j]] + t[j + 1..];
    assert t[i] == t[..j][i];
  }

  /** A sorted permutation of a sequence without repetitions is strictly ascending. */
  lemma SortedPermutationStrict(s: seq<string>, t: seq<string>)
    requires Distinct(s) && Sorted(t) && multiset(t) == multiset(s)
    ensures StrictlySorted(t)
  {
    forall i, j | 0 <= i < j < |t| ensures Less(t[i], t[j]) {
      if t[i] == t[j] {
        RepeatCount(t, i, j);
        DistinctCount(s, t[i]);
      }
      LessTotal(t[i], t[j]);
    }
  }

  /** Within the block of one directory, walkDir lists each Markdown file once: the
      collected paths are pairwise distinct, and the sorted listing is strictly ascending. */
  lemma CollectedOnce(node: Node, path: string, name: string)
    requires WellFormed(node)
    ensures Distinct(MdList(node, path, name))
    ensures StrictlySorted(Sort(MdList(node, path, name)))
  {
    var files := MdList(node, path, name);
    MdListDistinct(node, path, name);
    SortIsSorted(files);
    SortedPermutationStrict(files, Sort(files));
  }
}
