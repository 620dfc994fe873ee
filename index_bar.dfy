/**
 * The index bar: the list of section headings, the titles of the chosen
 * section, and the rules that pick, keep and change the chosen section.
 */
module IndexBar {
  import opened Articles
  import opened ArticleIndex
  import opened App

  /** The section first shown: the selected article's, else the first key set, else none. */
  function InitialSection(current: Option<Article>, c: Collection): Option<char>
    requires current.Some? ==> Titled(current.value)
  {
    if current.Some? then Some(Label(current.value))
    else if c.order != [] then Some(c.order[0])
    else None
  }

  /** The initial section is always a key, and there is none only for an empty collection with nothing selected. */
  lemma InitialSectionIsKey(current: Option<Article>, c: Collection)
    requires WellFormed(c)
    requires current.Some? ==> Titled(current.value) && Label(current.value) in c.entries
    ensures var section := InitialSection(current, c);
      && (section.Some? ==> section.value in c.entries)
      && (section.None? <==> current.None? && c.entries == map[])
  {
    if c.entries != map[] {
      var k :| k in c.entries;
      assert k in c.order;
    }
  }

  /** Over a freshly populated collection with nothing selected, the first section is the first article's. */
  lemma SeedSection(data: seq<Article>)
    requires AllTitled(data)
    ensures InitialSection(None, Populated(data)) == if data == [] then None else Some(Label(data[0]))
  {
    PopulatedOrder(data);
    if data != [] {
      FirstLabelsHead(data);
    }
  }

  datatype BarState = BarState(section: Option<char>)

  /**
   * getDerivedStateFromProps: an update (Some) to the section of the
   * selected article when there is one and no section is chosen yet;
   * otherwise no update (null).
   */
  function DerivedStateFromProps(current: Option<Article>, state: BarState): (update: Option<BarState>)
    requires current.Some? ==> Titled(current.value)
    ensures update.Some? <==> current.Some? && state.section.None?
    ensures update.Some? ==> update.value.section == Some(Label(current.value))
  {
    if current.Some? && state.section.None? then Some(BarState(Some(Label(current.value)))) else None
  }

  /** React's merge of a returned update into the state. */
  function Merge(state: BarState, update: Option<BarState>): BarState {
    if update.Some? then update.value else state
  }

  /** The derived state settles at once, and the constructor's choice is already settled. */
  lemma DerivedStateSettles(current: Option<Article>, state: BarState, c: Collection)
    requires current.Some? ==> Titled(current.value)
    ensures DerivedStateFromProps(current, Merge(state, DerivedStateFromProps(current, state))).None?
    ensures DerivedStateFromProps(current, BarState(InitialSection(current, c))).None?
  {
  }

  /** Every label after the previous one. */
  predicate Ascending(ks: seq<char>) {
    forall i :: 0 < i < |ks| ==> ks[i - 1] < ks[i]
  }

  /** Every label after all earlier ones, so none occurs twice. */
  predicate StrictlySorted(ks: seq<char>) {
    forall i, j :: 0 <= i < j < |ks| ==> ks[i] < ks[j]
  }

  lemma {:induction false} AscendingIsStrictlySorted(ks: seq<char>)
    requires Ascending(ks)
    ensures StrictlySorted(ks) && Distinct(ks)
  {
    if |ks| > 1 {
      var p := ks[..|ks| - 1];
      AscendingIsStrictlySorted(p);
      forall i | 0 <= i < |ks| - 1
        ensures ks[i] < ks[|ks| - 1]
      {
        if i < |ks| - 2 {
          assert p[i] < p[|ks| - 2];
        }
      }
    }
  }

  lemma AscendingCons(x: char, s: seq<char>)
    requires Ascending(s) && (s != [] ==> x < s[0])
    ensures Ascending([x] + s)
  {
    var r := [x] + s;
    forall i | 1 < i < |r|
      ensures r[i - 1] < r[i]
    {
      assert r[i - 1] == s[i - 2] && r[i] == s[i - 1];
    }
  }

  /** One label inserted into an ascending list keeps it ascending; the head is the new label or the old head. */
  function InsertLabel(k: char, ks: seq<char>): (r: seq<char>)
    requires Ascending(ks) && k !in ks
    ensures |r| == |ks| + 1 && Ascending(r)
    ensures r[0] == k || (ks != [] && r[0] == ks[0])
  {
    if ks == [] || k < ks[0] then [k] + ks
    else
      var tail := ks[1..];
      assert ks == [ks[0]] + tail;
      var rest := InsertLabel(k, tail);
      AscendingCons(ks[0], rest);
      [ks[0]] + rest
  }

  /** Inserting adds the label and loses nothing. */
  lemma {:induction false} InsertLabelAdds(k: char, ks: seq<char>)
    requires Ascending(ks) && k !in ks
    ensures multiset(InsertLabel(k, ks)) == multiset(ks) + multiset{k}
  {
    if ks != [] && !(k < ks[0]) {
      assert ks == [ks[0]] + ks[1..];
      InsertLabelAdds(k, ks[1..]);
    }
  }

  /** Array.from(collection.keys()).sort(): the keys in ascending order. */
  function SortedSections(ks: seq<char>): (r: seq<char>)
    requires Distinct(ks)
    ensures Ascending(r)
    ensures multiset(r) == multiset(ks)
  {
    if ks == [] then []
    else
      assert ks == [ks[0]] + ks[1..];
      var rest := SortedSections(ks[1..]);
      assert ks[0] !in multiset(rest);
      InsertLabelAdds(ks[0], rest);
      InsertLabel(ks[0], rest)
  }

  /** Lexicographic order on titles, character by character. */
  predicate TitleLe(a: string, b: string) {
    |a| == 0 || (|b| > 0 && (a[0] < b[0] || (a[0] == b[0] && TitleLe(a[1..], b[1..]))))
  }

  lemma {:induction false} TitleLeTotal(a: string, b: string)
    ensures TitleLe(a, b) || TitleLe(b, a)
  {
    if |a| > 0 && |b| > 0 && a[0] == b[0] {
      TitleLeTotal(a[1..], b[1..]);
    }
  }

  lemma {:induction false} TitleLeTransitive(a: string, b: string, c: string)
    requires TitleLe(a, b) && TitleLe(b, c)
    ensures TitleLe(a, c)
  {
    if |a| > 0 && a[0] == b[0] && b[0] == c[0] {
      TitleLeTransitive(a[1..], b[1..], c[1..]);
    }
  }

  /** Each title is at most the next one. */
  ghost predicate SortedByTitle(s: seq<Article>) {
    forall i :: 0 < i < |s| ==> TitleLe(s[i - 1].title, s[i].title)
  }

  /** A list sorted by title has every title at most every later one. */
  lemma {:induction false} SortedByTitlePairwise(s: seq<Article>)
    requires SortedByTitle(s)
    ensures forall i, j :: 0 <= i < j < |s| ==> TitleLe(s[i].title, s[j].title)
  {
    if |s| > 1 {
      var p := s[..|s| - 1];
      SortedByTitlePairwise(p);
      forall i | 0 <= i < |s| - 1
        ensures TitleLe(s[i].title, s[|s| - 1].title)
      {
        if i < |s| - 2 {
          assert TitleLe(p[i].title, p[|s| - 2].title);
          TitleLeTransitive(s[i].title, s[|s| - 2].title, s[|s| - 1].title);
        }
      }
    }
  }

  function InsertByTitle(a: Article, s: seq<Article>): (r: seq<Article>)
    requires SortedByTitle(s)
    ensures SortedByTitle(r)
    ensures multiset(r) == multiset(s) + multiset{a}
    ensures r[0] == a || (s != [] && r[0] == s[0])
  {
    if s == [] || TitleLe(a.title, s[0].title) then [a] + s
    else
      TitleLeTotal(a.title, s[0].title);
      assert s == [s[0]] + s[1..];
      [s[0]] + InsertByTitle(a, s[1..])
  }

  /** The sort in IndexTitles: a permutation of s, sorted by title. */
  function SortByTitle(s: seq<Article>): (r: seq<Article>)
    ensures SortedByTitle(r)
    ensures multiset(r) == multiset(s)
  {
    if s == [] then []
    else
      assert s == [s[0]] + s[1..];
      InsertByTitle(s[0], SortByTitle(s[1..]))
  }

  /** The index bar of an application: the chosen section, and the app whose collection it shows. */
  class IndexBar {
    const app: App
    var section: Option<char>

    /** The application is consistent and the chosen section, if any, is one of its keys. */
    ghost predicate Valid()
      reads this, app
    {
      app.Valid() && (section.Some? ==> section.value in app.collection.entries)
    }

    /** The constructor picks the initial section. */
    constructor (app: App)
      requires app.Valid()
      ensures Valid() && this.app == app
      ensures section == InitialSection(app.currentArticle, app.collection)
    {
      InitialSectionIsKey(app.currentArticle, app.collection);
      this.app := app;
      section := InitialSection(app.currentArticle, app.collection);
    }

    /** The derived-state rule, applied before a render. */
    method ApplyDerivedState()
      requires Valid()
      modifies this
      ensures Valid()
      ensures section == Merge(BarState(old(section)), DerivedStateFromProps(app.currentArticle, BarState(old(section)))).section
    {
      var update := DerivedStateFromProps(app.currentArticle, BarState(section));
      if update.Some? {
        section := update.value.section;
      }
    }

    /** handleSectionChange: a different section is chosen and the article deselected; the same section changes nothing. */
    method HandleSectionChange(newSection: char)
      requires Valid() && app.mode == View && newSection in app.collection.entries
      modifies this, app
      ensures Valid()
      ensures app.collection == old(app.collection) && app.mode == old(app.mode)
      ensures Some(newSection) != old(section) ==> section == Some(newSection) && app.currentArticle == None
      ensures Some(newSection) == old(section) ==> section == old(section) && app.currentArticle == old(app.currentArticle)
    {
      if Some(newSection) != section {
        section := Some(newSection);
        app.Select(None);
      }
    }

    /** The section headings shown: every key of the collection, ascending, each once. */
    function Sections(): (headings: seq<char>)
      reads this, app
      requires Valid()
      ensures StrictlySorted(headings)
      ensures forall k :: k in headings <==> k in app.collection.entries
    {
      var headings := SortedSections(app.collection.order);
      AscendingIsStrictlySorted(headings);
      assert forall k :: k in headings <==> k in multiset(app.collection.order);
      headings
    }

    /**
     * IndexTitles: sorts the chosen section's own array in place by title and
     * lists it. The collection keeps its keys, and the section the same articles.
     */
    method ShowTitles() returns (titles: seq<Article>)
      requires Valid() && section.Some?
      modifies app
      ensures Valid()
      ensures SortedByTitle(titles)
      ensures multiset(titles) == multiset(old(app.collection.entries[section.value]))
      ensures app.collection == old(app.collection).Set(section.value, titles)
      ensures app.currentArticle == old(app.currentArticle) && app.mode == old(app.mode)
    {
      var key := section.value;
      titles := SortByTitle(app.collection.entries[key]);
      ReorderKeepsWellFormed(app.collection, key, titles);
      app.collection := app.collection.Set(key, titles);
    }

    /** Clicking the i-th title of the chosen section selects exactly that article. */
    method ClickTitle(i: nat)
      requires Valid() && app.mode == View && section.Some?
      requires i < |app.collection.entries[section.value]|
      modifies app
      ensures Valid()
      ensures app.currentArticle == Some(old(app.collection.entries[section.value][i]))
      ensures app.collection == old(app.collection) && app.mode == old(app.mode)
    {
      var article := app.collection.entries[section.value][i];
      app.Select(Some(article));
    }
  }
}
