/**
 * The application controller: it owns the article collection, the view/edit
 * mode and the selected article, and routes the buttons and the editor's
 * result into them.
 */
module App {
  import opened Articles
  import opened ArticleIndex
  import Editor

  datatype Mode = View | Edit

  datatype Button = NewButton | EditButton

  class App {
    var collection: Collection
    var mode: Mode
    var currentArticle: Option<Article>

    /**
     * The collection is well formed and the selected article, if any, is
     * filed under its own label.
     */
    ghost predicate Valid()
      reads this
    {
      && WellFormed(collection)
      && (currentArticle.Some? ==>
            && Titled(currentArticle.value)
            && Label(currentArticle.value) in collection.entries
            && currentArticle.value in collection.entries[Label(currentArticle.value)])
    }

    /** The collection is populated from the seed list; browsing, nothing selected. */
    constructor (data: seq<Article>)
      requires AllTitled(data)
      ensures Valid()
      ensures forall L :: L in collection.entries ==> collection.entries[L] == Section(data, L)
      ensures collection.order == FirstLabels(data)
      ensures mode == View && currentArticle == None
    {
      var c := PopulateArticleMap(data);
      collection := c;
      mode := View;
      currentArticle := None;
    }

    /**
     * handleEditorReturn: None is a cancel and changes nothing but the mode.
     * Some(a) removes the first entry titled like the article being edited
     * from that article's section, files `a` under its own label and selects
     * it. Either way the mode returns to View.
     */
    method HandleEditorReturn(newArticle: Option<Article>)
      requires Valid()
      requires newArticle.Some? ==> Titled(newArticle.value)
      modifies this
      ensures Valid()
      ensures newArticle.None? ==> collection == old(collection) && currentArticle == old(currentArticle)
      ensures newArticle.Some? ==>
                && collection == Saved(old(collection), old(currentArticle), newArticle.value)
                && currentArticle == newArticle
      ensures mode == View
    {
      if newArticle.Some? {
        ghost var before := collection;
        if currentArticle.Some? {
          // a replacement: remove the old article
          var oldArticle := currentArticle.value;
          var key := Label(oldArticle);
          var section := collection.entries[key];
          var index := FindIndex(section, oldArticle.title);
          if index > -1 {
            RemoveFirstAt(section, oldArticle.title, index);
            section := section[..index] + section[index + 1..];
            collection := collection.Set(key, section);
          } else {
            // the selected article is filed in its section, so a match exists
            assert false;
          }
          assert collection == Remove(before, key, oldArticle.title);
        }
        collection := Add(collection, newArticle.value);
        assert collection == Saved(before, currentArticle, newArticle.value);
        currentArticle := newArticle;
      }
      mode := View;
    }

    /** The New Article button: edit a blank article. */
    method NewArticle()
      requires Valid() && mode == View
      modifies this
      ensures Valid()
      ensures mode == Edit && currentArticle == None && collection == old(collection)
    {
      mode, currentArticle := Edit, None;
    }

    /** The Edit Article button: edit the selected article. */
    method EditArticle()
      requires Valid() && mode == View && currentArticle.Some?
      modifies this
      ensures Valid()
      ensures mode == Edit && currentArticle == old(currentArticle) && collection == old(collection)
    {
      mode := Edit;
    }

    /** While editing, the editor is shown on the selected article (blank for a new one). */
    method OpenEditor() returns (editor: Editor.Editor)
      requires Valid() && mode == Edit
      ensures fresh(editor)
      ensures currentArticle.Some? ==> editor.title == currentArticle.value.title && editor.extract == currentArticle.value.extract
      ensures currentArticle.None? ==> editor.title == "" && editor.extract == ""
    {
      editor := new Editor.Editor(currentArticle);
    }

    /** The `select` callback handed to the index bar. */
    method Select(article: Option<Article>)
      requires Valid()
      requires article.Some? ==>
                 Titled(article.value) && Label(article.value) in collection.entries
                 && article.value in collection.entries[Label(article.value)]
      modifies this`currentArticle
      ensures Valid() && currentArticle == article
    {
      currentArticle := article;
    }

    /** The buttons shown: New Article while browsing, Edit Article too once something is selected. */
    function Buttons(): (shown: seq<Button>)
      reads this
      ensures NewButton in shown <==> mode == View
      ensures EditButton in shown <==> mode == View && currentArticle.Some?
    {
      if mode != View then []
      else if currentArticle.Some? then [NewButton, EditButton]
      else [NewButton]
    }
  }
}
