// Ordering of names and paths: what sort.Strings, sort.Slice by name and the
// name order of os.ReadDir produce.
module Sorting {
  import opened GoStrings

  /** No element is smaller than one before it (Go's sort postcondition). */
  predicate Sorted(s: seq<string>) {
    forall i, j :: 0 <= i < j < |s| ==> !Less(s[j], s[i])
  }

  /** Ascending without repetitions, as the names of a directory listing are. */
  predicate StrictlySorted(s: seq<string>) {
    forall i, j :: 0 <= i < j < |s| ==> Less(s[i], s[j])
  }

  lemma StrictlySortedIsSorted(s: seq<string>)
    requires StrictlySorted(s)
    ensures Sorted(s)
  {
    forall i, j | 0 <= i < j < |s| ensures !Less(s[j], s[i]) {
      if Less(s[j], s[i]) {
        LessTransitive(s[i], s[j], s[i]);
        LessIrreflexive(s[i]);
      }
    }
  }

  /** Inserts `x` before the first element that is not smaller than it. */
  function Insert(x: string, s: seq<string>): (r: seq<string>)
    ensures multiset(r) == multiset(s) + multiset{x}
    decreases |s|
  {
    if s == [] then [x]
    else if Less(s[0], x) then
      assert s == [s[0]] + s[1..];
      [s[0]] + Insert(x, s[1..])
    else [x] + s
  }

  lemma {:induction false} InsertSorted(x: string, s: seq<string>)
    requires Sorted(s)
    ensures Sorted(Insert(x, s))
    decreases |s|
  {
    if s != [] {
      if Less(s[0], x) {
        InsertSorted(x, s[1..]);
        var rest := Insert(x, s[1..]);
        assert s == [s[0]] + s[1..];
        forall j | 0 <= j < |rest| ensures !Less(rest[j], s[0]) {
          assert rest[j] in multiset(rest);
          if rest[j] != x {
            assert rest[j] in s[1..];
          } else {
            LessTotal(s[0], x);
            if Less(x, s[0]) { LessTransitive(x, s[0], x); LessIrreflexive(x); }
          }
        }
      } else {
        forall j | 0 <= j < |s| ensures !Less(s[j], x) {
          LessIrreflexive(s[0]);
          NotLessTransitive(x, s[0], s[j]);
        }
      }
    }
  }

  /** The result of sorting `s` with Go's sort.Strings: insertion sort. */
  function Sort(s: seq<string>): (r: seq<string>)
    ensures multiset(r) == multiset(s)
    decreases |s|
  {
    if s == [] then []
    else
      assert s == [s[0]] + s[1..];
      Insert(s[0], Sort(s[1..]))
  }

  /** Sort returns its input in ascending order. */
  lemma {:induction false} SortIsSorted(s: seq<string>)
    ensures Sorted(Sort(s))
    decreases |s|
  {
    if s != [] {
      SortIsSorted(s[1..]);
      InsertSorted(s[0], Sort(s[1..]));
    }
  }

  /** Two sorted arrangements of one multiset start with the same element. */
  lemma SortedHeads(a: seq<string>, b: seq<string>)
    requires Sorted(a) && Sorted(b)
    requires multiset(a) == multiset(b) && a != []
    ensures b != [] && a[0] == b[0]
  {
    assert a[0] in multiset(b);
    assert b[0] in multiset(a);
    var i :| 0 <= i < |b| && b[i] == a[0];
    var j :| 0 <= j < |a| && a[j] == b[0];
    LessIrreflexive(a[0]);
    LessIrreflexive(b[0]);
    assert !Less(a[0], b[0]) by { if 0 < i { assert !Less(b[i], b[0]); } }
    assert !Less(b[0], a[0]) by { if 0 < j { assert !Less(a[j], a[0]); } }
    LessTotal(a[0], b[0]);
  }

  lemma SortedTail(a: seq<string>)
    requires Sorted(a) && a != []
    ensures Sorted(a[1..])
  {
    forall i, j | 0 <= i < j < |a| - 1 ensures !Less(a[1..][j], a[1..][i]) {
      assert a[1..][j] == a[j + 1] && a[1..][i] == a[i + 1];
    }
  }

  lemma SortUniqueTails(a: seq<string>, b: seq<string>)
    requires a != [] && b != [] && a[0] == b[0] && multiset(a) == multiset(b)
    ensures multiset(a[1..]) == multiset(b[1..])
  {
    assert a == [a[0]] + a[1..] && b == [b[0]] + b[1..];
    assert multiset(a[1..]) == multiset(a) - multiset{a[0]};
    assert multiset(b[1..]) == multiset(b) - multiset{b[0]};
  }

  /** A multiset of strings has exactly one sorted arrangement. */
  lemma {:induction false} SortedUnique(a: seq<string>, b: seq<string>)
    requires Sorted(a) && Sorted(b)
    requires multiset(a) == multiset(b)
    ensures a == b
    decreases |a|
  {
    if a != [] {
      SortedHeads(a, b);
      SortedTail(a);
      SortedTail(b);
      SortUniqueTails(a, b);
      SortedUnique(a[1..], b[1..]);
    } else {
      assert |b| == |multiset(b)| == 0;
    }
  }

  /** Sorting an already sorted sequence changes nothing. */
  lemma SortSorted(s: seq<string>)
    requires Sorted(s)
    ensures Sort(s) == s
  {
    SortIsSorted(s);
    SortedUnique(Sort(s), s);
  }

  predicate IsLeast(m: string, s: set<string>) {
    m in s && forall x :: x in s ==> !Less(x, m)
  }

  lemma {:induction false} LeastExists(s: set<string>)
    requires s != {}
    ensures exists m :: IsLeast(m, s)
    decreases |s|
  {
    var x :| x in s;
    if s == {x} {
      LessIrreflexive(x);
      assert IsLeast(x, s);
    } else {
      LeastExists(s - {x});
      var m :| IsLeast(m, s - {x});
      LessTotal(m, x);
      if Less(x, m) {
        LessIrreflexive(x);
        forall y | y in s ensures !Less(y, x) {
          if y != x && Less(y, x) { LessTransitive(y, x, m); }
        }
        assert IsLeast(x, s);
      } else {
        LessIrreflexive(m);
        assert IsLeast(m, s);
      }
    }
  }

  lemma LeastUnique(m: string, n: string, s: set<string>)
    requires IsLeast(m, s) && IsLeast(n, s)
    ensures m == n
  {
    LessTotal(m, n);
  }

  /** The names of a set in ascending order: the order os.ReadDir reports directory entries in. */
  function SortedNames(s: set<string>): (r: seq<string>)
    ensures StrictlySorted(r)
    ensures |r| == |s|
    ensures forall x :: x in r <==> x in s
    decreases |s|
  {
    if s == {} then []
    else
      LeastExists(s);
      assert forall m, n :: IsLeast(m, s) && IsLeast(n, s) ==> m == n by {
        forall m, n | IsLeast(m, s) && IsLeast(n, s) ensures m == n { LeastUnique(m, n, s); }
      }
      var m :| IsLeast(m, s);
      var rest := SortedNames(s - {m});
      forall x | x in rest ensures Less(m, x) {
        LessTotal(m, x);
      }
      [m] + rest
  }

  /** sort.Strings: insertion sort in place, by swapping neighbours. */
  method SortInPlace(a: array<string>)
    modifies a
    ensures Sorted(a[..])
    ensures multiset(a[..]) == multiset(old(a[..]))
  {
    var i := 0;
    while i < a.Length
      invariant 0 <= i <= a.Length
      invariant Sorted(a[..i])
      invariant multiset(a[..]) == multiset(old(a[..]))
    {
      SiftDown(a, i);
      i := i + 1;
    }
    assert a[..a.Length] == a[..];
  }

  /** One pass of the insertion sort: moves a[i] down past the greater elements before it. */
  method SiftDown(a: array<string>, i: nat)
    requires i < a.Length
    requires Sorted(a[..i])
    modifies a
    ensures Sorted(a[..i + 1])
    ensures multiset(a[..]) == multiset(old(a[..]))
  {
    var j := i;
    while 0 < j && Less(a[j], a[j - 1])
      invariant 0 <= j <= i
      invariant forall k, l :: 0 <= k < l <= i && k != j && l != j ==> !Less(a[l], a[k])
      invariant forall l :: j < l <= i ==> !Less(a[l], a[j])
      invariant multiset(a[..]) == multiset(old(a[..]))
    {
      LessAsymmetric(a[j], a[j - 1]);
      a[j - 1], a[j] := a[j], a[j - 1];
      j := j - 1;
    }
    SiftDone(a[..], i, j);
  }

  /** Where the sift stops, the first i + 1 elements are in order. */
  lemma SiftDone(s: seq<string>, i: nat, j: nat)
    requires j <= i < |s|
    requires forall k, l :: 0 <= k < l <= i && k != j && l != j ==> !Less(s[l], s[k])
    requires forall l :: j < l <= i ==> !Less(s[l], s[j])
    requires !(0 < j && Less(s[j], s[j - 1]))
    ensures Sorted(s[..i + 1])
  {
    forall k | 0 <= k < j ensures !Less(s[j], s[k]) {
      LessTotal(s[j], s[j - 1]);
      if k < j - 1 { NotLessTransitive(s[k], s[j - 1], s[j]); }
    }
  }

  /** Sorts a slice, as sort.Strings and sort.Slice by name do. */
  method SortStrings(s: seq<string>) returns (r: seq<string>)
    ensures Sorted(r) && multiset(r) == multiset(s)
  {
    var a := new string[|s|](i requires 0 <= i < |s| => s[i]);
    assert a[..] == s;
    SortInPlace(a);
    r := a[..];
  }

  /** A sorted permutation of a listing in ascending order is that listing. */
  lemma SortedListing(r: seq<string>, names: seq<string>)
    requires Sorted(r) && multiset(r) == multiset(names)
    requires StrictlySorted(names)
    ensures r == names
  {
    StrictlySortedIsSorted(names);
    SortedUnique(r, names);
  }
}
