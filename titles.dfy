// prettify: turns a file or directory name into the title shown in the summary,
// "my_file-name" becoming "My File Name".
module Titles {
  import opened GoStrings

  /** unicode.IsSpace, the separator test of strings.Fields. */
  predicate IsSpace(c: char) {
    c == ' ' || '\t' <= c <= '\r' || c == '\U{0085}' || c == '\U{00A0}' ||
    c == '\U{1680}' || '\U{2000}' <= c <= '\U{200A}' || c == '\U{2028}' ||
    c == '\U{2029}' || c == '\U{202F}' || c == '\U{205F}' || c == '\U{3000}'
  }

  /** A field of strings.Fields: non-empty and free of white space. */
  predicate IsWord(w: string) {
    w != [] && forall i :: 0 <= i < |w| ==> !IsSpace(w[i])
  }

  /** Length of the white-space-free prefix of `s`. */
  function WordLength(s: string): (k: nat)
    ensures k <= |s|
    ensures forall i :: 0 <= i < k ==> !IsSpace(s[i])
    ensures k < |s| ==> IsSpace(s[k])
    decreases |s|
  {
    if s == [] || IsSpace(s[0]) then 0 else 1 + WordLength(s[1..])
  }

  /** strings.Fields: the maximal runs of non-white-space characters, in order. */
  function Fields(s: string): seq<string>
    decreases |s|
  {
    if s == [] then []
    else if IsSpace(s[0]) then Fields(s[1..])
    else
      var k := WordLength(s);
      [s[..k]] + Fields(s[k..])
  }

  /** strings.ToUpper(w[:1]) + strings.ToLower(w[1:]) on an ASCII word. */
  function Capitalize(w: string): string {
    if w == [] then w else [UpperChar(w[0])] + ToLower(w[1..])
  }

  /** The loop of prettify that rewrites every word in place. */
  function CapitalizeAll(words: seq<string>): (r: seq<string>)
    ensures |r| == |words|
    decreases |words|
  {
    if words == [] then [] else [Capitalize(words[0])] + CapitalizeAll(words[1..])
  }

  /** The name with every '-' and every '_' turned into a space. */
  function SpaceSeparators(name: string): string {
    ReplaceAll(ReplaceAll(name, '-', ' '), '_', ' ')
  }

  /** prettify(name) */
  function Prettify(name: string): string {
    Join(CapitalizeAll(Fields(SpaceSeparators(name))), " ")
  }

  // ----- properties -----

  /** ASCII case mapping keeps white space, '-' and '_' where they are, and settles
      after one application. */
  lemma CaseChar(ch: char)
    ensures IsSpace(UpperChar(ch)) == IsSpace(ch) && IsSpace(LowerChar(ch)) == IsSpace(ch)
    ensures (UpperChar(ch) == '-') == (ch == '-') && (LowerChar(ch) == '-') == (ch == '-')
    ensures (UpperChar(ch) == '_') == (ch == '_') && (LowerChar(ch) == '_') == (ch == '_')
    ensures UpperChar(UpperChar(ch)) == UpperChar(ch) && LowerChar(LowerChar(ch)) == LowerChar(ch)
  {
  }

  /** Character i of a capitalized word. */
  lemma CapitalizeAt(w: string, i: nat)
    requires i < |w|
    ensures |Capitalize(w)| == |w|
    ensures Capitalize(w)[i] == if i == 0 then UpperChar(w[0]) else LowerChar(w[i])
  {
    var rest := w[1..];
    var lowered := ToLower(rest);
    assert Capitalize(w) == [UpperChar(w[0])] + lowered;
    if i > 0 {
      assert lowered[i - 1] == LowerChar(rest[i - 1]);
      assert rest[i - 1] == w[i];
    }
  }

  lemma CapitalizeWord(w: string)
    requires IsWord(w)
    ensures IsWord(Capitalize(w))
    ensures Capitalize(Capitalize(w)) == Capitalize(w)
    ensures '-' !in w && '_' !in w ==> '-' !in Capitalize(w) && '_' !in Capitalize(w)
  {
    var c := Capitalize(w);
    forall i | 0 <= i < |c|
      ensures !IsSpace(c[i])
      ensures '-' !in w && '_' !in w ==> c[i] != '-' && c[i] != '_'
      ensures Capitalize(c)[i] == c[i]
    {
      CapitalizeAt(w, i);
      CapitalizeAt(c, i);
      CaseChar(w[i]);
      CaseChar(w[0]);
    }
    assert Capitalize(c) == c;
  }

  /** Every field is a word. */
  lemma {:induction false} FieldsAreWords(s: string)
    ensures forall i :: 0 <= i < |Fields(s)| ==> IsWord(Fields(s)[i])
    decreases |s|
  {
    if s != [] {
      if IsSpace(s[0]) {
        FieldsAreWords(s[1..]);
      } else {
        FieldsAreWords(s[WordLength(s)..]);
      }
    }
  }

  /** `s` with every white-space character removed. */
  function WithoutSpace(s: string): string
    decreases |s|
  {
    if s == [] then [] else (if IsSpace(s[0]) then [] else [s[0]]) + WithoutSpace(s[1..])
  }

  /** The words of `words` written one after another. */
  function Concat(words: seq<string>): string
    decreases |words|
  {
    if words == [] then [] else words[0] + Concat(words[1..])
  }

  /** Removing the white space of a white-space-free prefix keeps that prefix whole. */
  lemma {:induction false} WithoutSpacePrefix(s: string, k: nat)
    requires k <= |s|
    requires forall i :: 0 <= i < k ==> !IsSpace(s[i])
    ensures WithoutSpace(s) == s[..k] + WithoutSpace(s[k..])
    decreases k
  {
    if k > 0 {
      WithoutSpacePrefix(s[1..], k - 1);
      assert s[1..][..k - 1] == s[1..k];
      assert s[1..][k - 1..] == s[k..];
      assert [s[0]] + s[1..k] == s[..k];
    }
  }

  /** strings.Fields loses no text: its fields, written one after another, are `s`
      without its white space. */
  lemma {:induction false} FieldsKeepsText(s: string)
    ensures Concat(Fields(s)) == WithoutSpace(s)
    decreases |s|
  {
    if s != [] {
      if IsSpace(s[0]) {
        FieldsKeepsText(s[1..]);
      } else {
        var k := WordLength(s);
        var rest := Fields(s[k..]);
        FieldsKeepsText(s[k..]);
        WithoutSpacePrefix(s, k);
        assert ([s[..k]] + rest)[1..] == rest;
        assert Concat([s[..k]] + rest) == s[..k] + Concat(rest);
      }
    }
  }

  /** Every character of `w` is white space. */
  predicate AllSpace(w: string) {
    forall i :: 0 <= i < |w| ==> IsSpace(w[i])
  }

  /** The runs of white space around and between the fields of `s`: one before the
      first field, one after each field. */
  function Gaps(s: string): seq<string>
    decreases |s|
  {
    if s == [] then [[]]
    else if IsSpace(s[0]) then
      var g := Gaps(s[1..]);
      if g == [] then [[s[0]]] else [[s[0]] + g[0]] + g[1..]
    else [[]] + Gaps(s[WordLength(s)..])
  }

  /** gaps[0] + words[0] + gaps[1] + ... + words[n-1] + gaps[n]. */
  function Weave(gaps: seq<string>, words: seq<string>): string
    requires |gaps| == |words| + 1
    decreases |words|
  {
    if words == [] then gaps[0] else gaps[0] + words[0] + Weave(gaps[1..], words[1..])
  }

  lemma WeaveFront(gaps: seq<string>, words: seq<string>, c: char)
    requires |gaps| == |words| + 1
    ensures Weave([[c] + gaps[0]] + gaps[1..], words) == [c] + Weave(gaps, words)
  {
    var g := [[c] + gaps[0]] + gaps[1..];
    assert g[1..] == gaps[1..];
  }

  /** strings.Fields splits at maximal runs: `s` is its fields with runs of white space
      woven between them, and every run between two fields is non-empty. */
  lemma {:induction false} FieldsMaximal(s: string)
    ensures |Gaps(s)| == |Fields(s)| + 1
    ensures forall i :: 0 <= i < |Gaps(s)| ==> AllSpace(Gaps(s)[i])
    ensures forall i :: 0 < i < |Fields(s)| ==> Gaps(s)[i] != []
    ensures s != [] && IsSpace(s[0]) ==> Gaps(s)[0] != []
    ensures s == Weave(Gaps(s), Fields(s))
    decreases |s|
  {
    if s == [] {
    } else if IsSpace(s[0]) {
      var g := Gaps(s[1..]);
      FieldsMaximal(s[1..]);
      assert Gaps(s) == [[s[0]] + g[0]] + g[1..];
      WeaveFront(g, Fields(s[1..]), s[0]);
      assert s == [s[0]] + s[1..];
    } else {
      var k := WordLength(s);
      var g := Gaps(s[k..]);
      var f := Fields(s[k..]);
      FieldsMaximal(s[k..]);
      assert Gaps(s) == [[]] + g;
      assert Fields(s) == [s[..k]] + f;
      assert ([[]] + g)[1..] == g;
      assert ([s[..k]] + f)[1..] == f;
      assert s == [] + s[..k] + s[k..];
      if f != [] {
        assert s[k..] != [];
      }
    }
  }

  /** CapitalizeAll rewrites each word on its own. */
  lemma {:induction false} CapitalizeAllAt(words: seq<string>)
    ensures forall i :: 0 <= i < |words| ==> CapitalizeAll(words)[i] == Capitalize(words[i])
    decreases |words|
  {
    if words != [] {
      CapitalizeAllAt(words[1..]);
    }
  }

  lemma {:induction false} WordLengthOfWord(w: string, rest: string)
    requires forall i :: 0 <= i < |w| ==> !IsSpace(w[i])
    requires rest == [] || IsSpace(rest[0])
    ensures WordLength(w + rest) == |w|
    decreases |w|
  {
    if w != [] {
      assert (w + rest)[1..] == w[1..] + rest;
      WordLengthOfWord(w[1..], rest);
    } else {
      assert w + rest == rest;
    }
  }

  /** Splitting words that were joined with single spaces gives the words back. */
  lemma {:induction false} FieldsOfJoin(words: seq<string>)
    requires forall i :: 0 <= i < |words| ==> IsWord(words[i])
    ensures Fields(Join(words, " ")) == words
    decreases |words|
  {
    if |words| == 1 {
      var w := words[0];
      WordLengthOfWord(w, []);
      assert w + [] == w;
      assert w[|w|..] == [];
      assert w[..|w|] == w;
    } else if |words| > 1 {
      var w := words[0];
      var rest := Join(words[1..], " ");
      var s := w + " " + rest;
      assert s == Join(words, " ");
      WordLengthOfWord(w, " " + rest);
      assert s == w + (" " + rest);
      assert s[..|w|] == w;
      assert s[|w|..] == " " + rest;
      assert (" " + rest)[1..] == rest;
      FieldsOfJoin(words[1..]);
      assert words == [w] + words[1..];
    }
  }

  lemma {:induction false} JoinWithoutSeparators(words: seq<string>)
    requires forall i :: 0 <= i < |words| ==> '-' !in words[i] && '_' !in words[i]
    ensures '-' !in Join(words, " ") && '_' !in Join(words, " ")
    decreases |words|
  {
    if |words| > 1 {
      JoinWithoutSeparators(words[1..]);
    }
  }

  lemma ReplaceAllAbsent(s: string, from: char, to: char)
    requires from !in s
    ensures ReplaceAll(s, from, to) == s
  {
  }

  lemma {:induction false} FieldsWithoutSeparators(s: string)
    requires '-' !in s && '_' !in s
    ensures forall i :: 0 <= i < |Fields(s)| ==> '-' !in Fields(s)[i] && '_' !in Fields(s)[i]
    decreases |s|
  {
    if s != [] {
      if IsSpace(s[0]) {
        FieldsWithoutSeparators(s[1..]);
      } else {
        var k := WordLength(s);
        FieldsWithoutSeparators(s[k..]);
        assert forall c :: c in s[..k] ==> c in s;
      }
    }
  }

  lemma SpacedHasNoSeparators(name: string)
    ensures '-' !in SpaceSeparators(name) && '_' !in SpaceSeparators(name)
  {
    var t := ReplaceAll(name, '-', ' ');
    assert '-' !in t;
    assert forall c :: c in ReplaceAll(t, '_', ' ') ==> c != '-' && c != '_';
  }

  /** What a title looks like: its words are the input's words (split at white space,
      '-' and '_') with the first letter upper-cased and the rest lower-cased, joined
      by exactly one space, with no leading or trailing space. */
  lemma PrettifyWords(name: string)
    ensures var r := Prettify(name);
      Fields(r) == CapitalizeAll(Fields(SpaceSeparators(name))) &&
      r == Join(Fields(r), " ") &&
      '-' !in r && '_' !in r &&
      forall i :: 0 <= i < |Fields(r)| ==> Capitalize(Fields(r)[i]) == Fields(r)[i]
  {
    var words := Fields(SpaceSeparators(name));
    var caps := CapitalizeAll(words);
    SpacedHasNoSeparators(name);
    FieldsAreWords(SpaceSeparators(name));
    CapitalizeAllAt(words);
    FieldsWithoutSeparators(SpaceSeparators(name));
    forall i | 0 <= i < |caps| ensures IsWord(caps[i]) && '-' !in caps[i] && '_' !in caps[i]
      && Capitalize(caps[i]) == caps[i]
    {
      CapitalizeWord(words[i]);
    }
    FieldsOfJoin(caps);
    JoinWithoutSeparators(caps);
  }

  /** Prettifying a title again leaves it unchanged. */
  lemma PrettifyIdempotent(name: string)
    ensures Prettify(Prettify(name)) == Prettify(name)
  {
    var r := Prettify(name);
    PrettifyWords(name);
    ReplaceAllAbsent(r, '-', ' ');
    ReplaceAllAbsent(r, '_', ' ');
    assert SpaceSeparators(r) == r;
    var ws := Fields(r);
    CapitalizeAllAt(ws);
    assert CapitalizeAll(ws) == ws;
  }

  lemma PrettifyEmpty()
    ensures Prettify("") == ""
  {
  }

  lemma SeparatorsExample()
    ensures SpaceSeparators("my_file-name") == "my file name"
  {
    var t := ReplaceAll("my_file-name", '-', ' ');
    assert t == "my_file name";
  }

  lemma CapitalizeExample()
    ensures CapitalizeAll(["my", "file", "name"]) == ["My", "File", "Name"]
  {
    assert Capitalize("my") == "My";
    assert Capitalize("file") == "File";
    assert Capitalize("name") == "Name";
  }

  lemma FieldsOfThreeWords(a: string, b: string, c: string)
    requires IsWord(a) && IsWord(b) && IsWord(c)
    ensures Fields(a + " " + b + " " + c) == [a, b, c]
  {
    var words := [a, b, c];
    FieldsOfJoin(words);
    assert words[1..][1..] == [c];
    assert Join(words[1..], " ") == b + " " + c;
    assert Join(words, " ") == a + " " + (b + " " + c);
    assert a + " " + b + " " + c == a + " " + (b + " " + c);
  }

  lemma FieldsExample()
    ensures Fields("my file name") == ["my", "file", "name"]
  {
    FieldsOfThreeWords("my", "file", "name");
    assert "my" + " " + "file" + " " + "name" == "my file name";
  }

  lemma PrettifyExample()
    ensures Prettify("my_file-name") == "My File Name"
  {
    SeparatorsExample();
    FieldsExample();
    CapitalizeExample();
    JoinExample();
  }

  lemma JoinExample()
    ensures Join(["My", "File", "Name"], " ") == "My File Name"
  {
  }

  /** A non-empty run of lower-case ASCII letters is a word that lower-casing keeps. */
  lemma LowerWord(w: string)
    requires w != [] && forall i :: 0 <= i < |w| ==> 'a' <= w[i] <= 'z'
    ensures IsWord(w) && ToLower(w) == w
  {
  }

  lemma IntroductionSeparators()
    ensures SpaceSeparators("introduction") == "introduction"
  {
    ReplaceAllAbsent("introduction", '-', ' ');
    ReplaceAllAbsent("introduction", '_', ' ');
  }

  lemma IntroductionFields()
    ensures Fields("introduction") == ["introduction"]
  {
    LowerWord("introduction");
    FieldsOfJoin(["introduction"]);
  }

  lemma IntroductionCapitalized()
    ensures CapitalizeAll(["introduction"]) == ["Introduction"]
  {
    var w := "introduction";
    LowerWord(w[1..]);
    assert UpperChar(w[0]) == 'I';
    assert Capitalize(w) == "I" + w[1..] == "Introduction";
    assert CapitalizeAll([w]) == [Capitalize(w)] + CapitalizeAll([]);
  }

  /** The first chapter's title. */
  lemma PrettifyIntroduction()
    ensures Prettify("introduction") == "Introduction"
  {
    IntroductionSeparators();
    IntroductionFields();
    IntroductionCapitalized();
  }
}
