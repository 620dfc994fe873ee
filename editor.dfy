/**
 * The editor form: a title and an extract being edited, and the article it
 * hands back on Save (or nothing on Cancel).
 */
module Editor {
  import opened Articles

  /** The two inputs of the form. */
  datatype Field = TitleField | ExtractField

  class Editor {
    var title: string
    var extract: string

    /** The form starts from the article being edited, or blank for a new one. */
    constructor (article: Option<Article>)
      ensures article.Some? ==> title == article.value.title && extract == article.value.extract
      ensures article.None? ==> title == "" && extract == ""
    {
      if article.Some? {
        title, extract := article.value.title, article.value.extract;
      } else {
        title, extract := "", "";
      }
    }

    /** A keystroke in one input replaces that field's text and leaves the other alone. */
    method HandleTextUpdate(field: Field, value: string)
      modifies this
      ensures field == TitleField ==> title == value && extract == old(extract)
      ensures field == ExtractField ==> extract == value && title == old(title)
    {
      match field
      case TitleField => title := value;
      case ExtractField => extract := value;
    }

    /** The Save button is enabled exactly when the title is not empty. */
    predicate SaveEnabled()
      reads this
    {
      title != ""
    }

    /**
     * Save: the article made of the form's text and the time `now`. It can be
     * filed (has a title) exactly when Save is enabled.
     */
    method HandleSave(now: string) returns (completed: Option<Article>)
      ensures completed.Some?
      ensures completed.value.title == title && completed.value.extract == extract
      ensures completed.value.edited == now
      ensures SaveEnabled() <==> Titled(completed.value)
    {
      completed := Some(Article(title, extract, now));
    }

    /** Cancel: nothing is handed back. */
    method HandleCancel() returns (completed: Option<Article>)
      ensures completed.None?
    {
      completed := None;
    }
  }
}
