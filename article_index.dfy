/**
 * The in-memory article index of the application: an insertion-ordered map
 * from section label to the list of articles filed there, how it is built
 * from the seed list, and how the editor's result is filed into it.
 */
module ArticleIndex {
  import opened Articles

  predicate Distinct(ks: seq<char>) {
    forall i, j :: 0 <= i < j < |ks| ==> ks[i] != ks[j]
  }

  /**
   * A JavaScript Map from section label to the array of that section: the
   * entries, and the keys in the order in which they were first set.
   */
  datatype Collection = Collection(entries: map<char, seq<Article>>, order: seq<char>) {

    /** The key order lists exactly the keys of the entries, each once. */
    ghost predicate Valid() {
      Distinct(order) && forall k :: k in entries <==> k in order
    }

    /** Map.prototype.has */
    predicate Has(key: char) {
      key in entries
    }

    /**
     * Map.prototype.set: the value under `key` becomes `v`; a new key goes
     * after all existing ones, an existing key keeps its place.
     */
    function Set(key: char, v: seq<Article>): (r: Collection)
      ensures r.entries == entries[key := v]
      ensures r.order == if key in entries then order else order + [key]
      ensures Valid() ==> r.Valid()
    {
      if key in entries then Collection(entries[key := v], order)
      else Collection(entries[key := v], order + [key])
    }
  }

  /** Every article filed under L has a title, and its label is L. */
  ghost predicate LabelsAgree(m: map<char, seq<Article>>) {
    forall L, x :: L in m && x in m[L] ==> Titled(x) && Label(x) == L
  }

  ghost predicate WellFormed(c: Collection) {
    c.Valid() && LabelsAgree(c.entries)
  }

  /** The articles of s that belong in section L, in the order of s. */
  function Section(s: seq<Article>, L: char): seq<Article>
    requires AllTitled(s)
  {
    if s == [] then []
    else Section(s[..|s| - 1], L) + (if Label(s[|s| - 1]) == L then [s[|s| - 1]] else [])
  }

  /** The labels of s, each once, in order of first appearance. */
  function FirstLabels(s: seq<Article>): seq<char>
    requires AllTitled(s)
  {
    if s == [] then []
    else
      var ks := FirstLabels(s[..|s| - 1]);
      if Label(s[|s| - 1]) in ks then ks else ks + [Label(s[|s| - 1])]
  }

  /** The lists under the keys ks, one after the other. */
  function Flatten(m: map<char, seq<Article>>, ks: seq<char>): seq<Article>
    requires forall k :: k in ks ==> k in m
  {
    if ks == [] then [] else m[ks[0]] + Flatten(m, ks[1..])
  }

  /** The sections of s under the keys ks, one after the other. */
  ghost function Sections(s: seq<Article>, ks: seq<char>): seq<Article>
    requires AllTitled(s)
  {
    if ks == [] then [] else Section(s, ks[0]) + Sections(s, ks[1..])
  }

  /** The collection that filing the articles of s one after the other produces. */
  function Populated(s: seq<Article>): Collection
    requires AllTitled(s)
  {
    if s == [] then Collection(map[], [])
    else Add(Populated(s[..|s| - 1]), s[|s| - 1])
  }

  /**
   * populateArticleMap: files every article, in input order, under its label.
   * Every list is exactly that label's share of the input, so no article is
   * lost, duplicated or reordered.
   */
  method PopulateArticleMap(articles: seq<Article>) returns (c: Collection)
    requires AllTitled(articles)
    ensures c == Populated(articles)
    ensures WellFormed(c)
    ensures forall L :: L in c.entries ==> c.entries[L] == Section(articles, L) && c.entries[L] != []
    ensures forall L :: L !in c.entries ==> Section(articles, L) == []
    ensures c.order == FirstLabels(articles)
    ensures forall L :: L in c.entries <==> exists i :: 0 <= i < |articles| && Label(articles[i]) == L
    ensures multiset(Flatten(c.entries, c.order)) == multiset(articles)
  {
    c := Collection(map[], []);
    for n := 0 to |articles|
      invariant c == Populated(articles[..n])
    {
      var article := articles[n];
      c := Add(c, article);
      assert articles[..n + 1][..n] == articles[..n];
    }
    assert articles[..|articles|] == articles;
    PopulatedWellFormed(articles);
    PopulatedSections(articles);
    PopulatedOrder(articles);
    PopulatedLabels(articles);
    Conserved(c, articles);
  }

  lemma {:induction false} PopulatedWellFormed(s: seq<Article>)
    requires AllTitled(s)
    ensures WellFormed(Populated(s))
  {
    if s != [] {
      PopulatedWellFormed(s[..|s| - 1]);
    }
  }

  lemma {:induction false} PopulatedKeys(s: seq<Article>)
    requires AllTitled(s)
    ensures forall k :: k in Populated(s).entries <==> k in Populated(s).order
  {
    if s != [] {
      PopulatedKeys(s[..|s| - 1]);
    }
  }

  /** Each list of the populated collection is its label's share of the input, and is never empty. */
  lemma {:induction false} PopulatedSections(s: seq<Article>)
    requires AllTitled(s)
    ensures forall L {:trigger Section(s, L)} :: Section(s, L) == if L in Populated(s).entries then Populated(s).entries[L] else []
    ensures forall L :: L in Populated(s).entries ==> Populated(s).entries[L] != []
  {
    if s != [] {
      var p, a := s[..|s| - 1], s[|s| - 1];
      PopulatedSections(p);
    }
  }

  /** The populated collection's keys come in order of their label's first appearance. */
  lemma {:induction false} PopulatedOrder(s: seq<Article>)
    requires AllTitled(s)
    ensures Populated(s).order == FirstLabels(s)
  {
    if s != [] {
      var p, a := s[..|s| - 1], s[|s| - 1];
      PopulatedOrder(p);
      PopulatedKeys(p);
    }
  }

  /** The populated collection's keys are exactly the labels of the input's titles. */
  lemma PopulatedLabels(s: seq<Article>)
    requires AllTitled(s)
    ensures forall L :: L in Populated(s).entries <==> exists i :: 0 <= i < |s| && Label(s[i]) == L
  {
    PopulatedKeys(s);
    PopulatedOrder(s);
    FirstLabelsCover(s);
  }

  /** A collection whose lists are the sections of s, keyed in first-label order, holds exactly s. */
  lemma Conserved(c: Collection, s: seq<Article>)
    requires AllTitled(s) && c.order == FirstLabels(s)
    requires forall k :: k in c.order ==> k in c.entries
    requires forall L {:trigger Section(s, L)} :: Section(s, L) == if L in c.entries then c.entries[L] else []
    ensures multiset(Flatten(c.entries, c.order)) == multiset(s)
  {
    FirstLabelsCover(s);
    FlattenIsSections(c.entries, s, c.order);
    SectionsConserve(s, c.order);
  }

  /** The first labels of s are distinct and are exactly the labels of its articles. */
  lemma {:induction false} FirstLabelsCover(s: seq<Article>)
    requires AllTitled(s)
    ensures Distinct(FirstLabels(s))
    ensures forall i :: 0 <= i < |s| ==> Label(s[i]) in FirstLabels(s)
    ensures forall k :: k in FirstLabels(s) ==> exists i :: 0 <= i < |s| && Label(s[i]) == k
  {
    if s != [] {
      var p := s[..|s| - 1];
      FirstLabelsCover(p);
      assert forall i :: 0 <= i < |p| ==> s[i] == p[i];
    }
  }

  /** The first key set is the label of the first article. */
  lemma {:induction false} FirstLabelsHead(s: seq<Article>)
    requires AllTitled(s) && s != []
    ensures FirstLabels(s) != [] && FirstLabels(s)[0] == Label(s[0])
  {
    var p := s[..|s| - 1];
    if p != [] {
      FirstLabelsHead(p);
      assert p[0] == s[0];
    }
  }

  lemma {:induction false} FlattenIsSections(m: map<char, seq<Article>>, s: seq<Article>, ks: seq<char>)
    requires AllTitled(s)
    requires forall k :: k in ks ==> k in m && m[k] == Section(s, k)
    ensures Flatten(m, ks) == Sections(s, ks)
  {
    if ks != [] {
      FlattenIsSections(m, s, ks[1..]);
    }
  }

  lemma {:induction false} SectionsOfEmpty(ks: seq<char>)
    ensures Sections([], ks) == []
  {
    if ks != [] {
      SectionsOfEmpty(ks[1..]);
    }
  }

  /** Appending one article to the input adds it to exactly the section of its label. */
  lemma {:induction false} SectionsGrow(s: seq<Article>, ks: seq<char>)
    requires AllTitled(s) && |s| > 0 && Distinct(ks)
    ensures multiset(Sections(s, ks)) ==
            multiset(Sections(s[..|s| - 1], ks)) + (if Label(s[|s| - 1]) in ks then multiset{s[|s| - 1]} else multiset{})
  {
    if ks != [] {
      assert Distinct(ks[1..]);
      SectionsGrow(s, ks[1..]);
      assert Label(s[|s| - 1]) == ks[0] ==> Label(s[|s| - 1]) !in ks[1..];
      assert Label(s[|s| - 1]) in ks <==> Label(s[|s| - 1]) == ks[0] || Label(s[|s| - 1]) in ks[1..];
    }
  }

  /** Splitting an input by distinct labels that cover it loses and duplicates nothing. */
  lemma {:induction false} SectionsConserve(s: seq<Article>, ks: seq<char>)
    requires AllTitled(s) && Distinct(ks)
    requires forall i :: 0 <= i < |s| ==> Label(s[i]) in ks
    ensures multiset(Sections(s, ks)) == multiset(s)
  {
    if s == [] {
      SectionsOfEmpty(ks);
    } else {
      var p, a := s[..|s| - 1], s[|s| - 1];
      assert forall i :: 0 <= i < |p| ==> p[i] == s[i];
      SectionsConserve(p, ks);
      SectionsGrow(s, ks);
      assert Label(a) in ks;
      LastSplit(s);
    }
  }

  lemma LastSplit(s: seq<Article>)
    requires |s| > 0
    ensures multiset(s) == multiset(s[..|s| - 1]) + multiset{s[|s| - 1]}
  {
    assert s == s[..|s| - 1] + [s[|s| - 1]];
  }

  /** The first position of s holding an article titled t. */
  ghost predicate IsFirstMatch(s: seq<Article>, t: string, i: int) {
    0 <= i < |s| && s[i].title == t && forall j :: 0 <= j < i ==> s[j].title != t
  }

  /** Array.prototype.findIndex with an exact title comparison; -1 when nothing matches. */
  method FindIndex(s: seq<Article>, t: string) returns (index: int)
    ensures index == -1 <==> forall j :: 0 <= j < |s| ==> s[j].title != t
    ensures index != -1 ==> IsFirstMatch(s, t, index)
  {
    index := 0;
    while index < |s| && s[index].title != t
      invariant 0 <= index <= |s|
      invariant forall j :: 0 <= j < index ==> s[j].title != t
    {
      index := index + 1;
    }
    if index == |s| {
      index := -1;
    }
  }

  /**
   * s without its first article titled t (findIndex followed by a one-element
   * splice); it never gains an article.
   */
  function RemoveFirst(s: seq<Article>, t: string): (r: seq<Article>)
    ensures |r| <= |s|
    ensures forall x :: x in r ==> x in s
  {
    if s == [] then []
    else if s[0].title == t then s[1..]
    else [s[0]] + RemoveFirst(s[1..], t)
  }

  /** With no article titled t, nothing is removed. */
  lemma {:induction false} RemoveFirstNoMatch(s: seq<Article>, t: string)
    requires forall j :: 0 <= j < |s| ==> s[j].title != t
    ensures RemoveFirst(s, t) == s
  {
    if s != [] {
      RemoveFirstNoMatch(s[1..], t);
    }
  }

  /** Exactly the first article titled t is cut out; the ones before keep their places. */
  lemma {:induction false} RemoveFirstAt(s: seq<Article>, t: string, i: int)
    requires IsFirstMatch(s, t, i)
    ensures RemoveFirst(s, t) == s[..i] + s[i + 1..]
    ensures |RemoveFirst(s, t)| == |s| - 1
  {
    if i > 0 {
      assert IsFirstMatch(s[1..], t, i - 1);
      RemoveFirstAt(s[1..], t, i - 1);
      assert s[..i] + s[i + 1..] == [s[0]] + (s[1..][..i - 1] + s[1..][i..]);
    }
  }

  /** A list holding some article titled t loses exactly one entry. */
  lemma {:induction false} RemoveFirstShrinks(s: seq<Article>, t: string, j: int)
    requires 0 <= j < |s| && s[j].title == t
    ensures |RemoveFirst(s, t)| == |s| - 1
  {
    if s[0].title != t {
      RemoveFirstShrinks(s[1..], t, j - 1);
    }
  }

  /** Files a into its section: appended last, the key created when absent. */
  function Add(c: Collection, a: Article): (r: Collection)
    requires Titled(a)
    ensures r.entries.Keys == c.entries.Keys + {Label(a)}
    ensures r.entries[Label(a)] == (if Label(a) in c.entries then c.entries[Label(a)] else []) + [a]
    ensures forall L :: L in c.entries && L != Label(a) ==> r.entries[L] == c.entries[L]
    ensures r.order == if Label(a) in c.entries then c.order else c.order + [Label(a)]
    ensures WellFormed(c) ==> WellFormed(r)
  {
    var key := Label(a);
    if c.Has(key) then c.Set(key, c.entries[key] + [a]) else c.Set(key, [a])
  }

  /** Removes the first article titled t from the section under `key`; no key is deleted. */
  function Remove(c: Collection, key: char, t: string): (r: Collection)
    requires key in c.entries
    ensures r.entries == c.entries[key := RemoveFirst(c.entries[key], t)]
    ensures r.order == c.order
    ensures WellFormed(c) ==> WellFormed(r)
  {
    c.Set(key, RemoveFirst(c.entries[key], t))
  }

  /**
   * The collection after the editor returns `a`: when an article was being
   * edited, its first same-titled entry leaves its section, then `a` is filed.
   */
  function Saved(c: Collection, current: Option<Article>, a: Article): (r: Collection)
    requires Titled(a)
    requires current.Some? ==> Titled(current.value) && Label(current.value) in c.entries
    ensures r.entries.Keys == c.entries.Keys + {Label(a)}
    ensures r.order == if Label(a) in c.entries then c.order else c.order + [Label(a)]
    ensures WellFormed(c) ==> WellFormed(r)
  {
    var base := if current.Some? then Remove(c, Label(current.value), current.value.title) else c;
    Add(base, a)
  }

  /** Saving a replacement: the three steps the save performs, one key at a time. */
  lemma SaveReplaces(c: Collection, prev: Article, a: Article)
    requires Titled(a) && Titled(prev) && Label(prev) in c.entries
    ensures var r := Saved(c, Some(prev), a);
      && r.entries.Keys == c.entries.Keys + {Label(a)}
      && (Label(prev) != Label(a) ==>
            r.entries[Label(prev)] == RemoveFirst(c.entries[Label(prev)], prev.title)
            && r.entries[Label(a)] == (if Label(a) in c.entries then c.entries[Label(a)] else []) + [a])
      && (Label(prev) == Label(a) ==>
            r.entries[Label(a)] == RemoveFirst(c.entries[Label(a)], prev.title) + [a])
      && forall L :: L in c.entries && L != Label(prev) && L != Label(a) ==> r.entries[L] == c.entries[L]
  {
  }

  /**
   * Editing a stored article under a new first letter moves it: the old
   * section loses exactly one entry and the new section ends with `a`.
   */
  lemma SaveMoves(c: Collection, prev: Article, a: Article)
    requires WellFormed(c) && Titled(a) && Titled(prev) && Label(prev) in c.entries
    requires prev in c.entries[Label(prev)] && Label(prev) != Label(a)
    ensures var r := Saved(c, Some(prev), a);
      && |r.entries[Label(prev)]| == |c.entries[Label(prev)]| - 1
      && r.entries[Label(a)][|r.entries[Label(a)]| - 1] == a
  {
    var s := c.entries[Label(prev)];
    var j :| 0 <= j < |s| && s[j] == prev;
    RemoveFirstShrinks(s, prev.title, j);
    SaveReplaces(c, prev, a);
  }

  /** Putting a permutation of a section back under its key keeps the collection well formed. */
  lemma ReorderKeepsWellFormed(c: Collection, key: char, r: seq<Article>)
    requires WellFormed(c) && key in c.entries && multiset(r) == multiset(c.entries[key])
    ensures WellFormed(c.Set(key, r))
    ensures forall x :: x in r <==> x in c.entries[key]
  {
    assert forall x :: x in r <==> x in multiset(c.entries[key]);
  }

  /** Appending an article whose title is new to the list and then removing that title restores the list. */
  lemma {:induction false} RemoveAfterAppend(s: seq<Article>, a: Article)
    requires forall j :: 0 <= j < |s| ==> s[j].title != a.title
    ensures RemoveFirst(s + [a], a.title) == s
  {
    if s != [] {
      assert (s + [a])[1..] == s[1..] + [a];
      RemoveAfterAppend(s[1..], a);
    }
  }

  /**
   * Filing an article and then removing its title from its section restores
   * every list; a key that the insertion created remains, with an empty list.
   */
  lemma RemoveAfterAdd(c: Collection, a: Article)
    requires Titled(a)
    requires Label(a) in c.entries ==> forall j :: 0 <= j < |c.entries[Label(a)]| ==> c.entries[Label(a)][j].title != a.title
    ensures Label(a) in Add(c, a).entries
    ensures Remove(Add(c, a), Label(a), a.title).entries ==
            c.entries[Label(a) := if Label(a) in c.entries then c.entries[Label(a)] else []]
  {
    RemoveAfterAppend(if Label(a) in c.entries then c.entries[Label(a)] else [], a);
  }
}
