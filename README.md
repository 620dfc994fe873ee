# Simplepedia: the article index and its state machines

Simplepedia is a small React encyclopedia. Articles (title, extract, `edited`
time stamp) are filed in a JavaScript `Map` from a section label (the title's
first character, upper-cased) to the array of articles in that section, in
the order the keys were first set. The application browses (`view`) or edits
(`edit`) one article at a time. The index bar shows the section headings and
the titles of the chosen section, and the editor hands back a new or revised
article (or nothing, on cancel) that the application then files.

The Dafny model has five modules:

- `Articles` (`articles.dfy`): the article record, ASCII upper-casing and the
  section label.
- `ArticleIndex` (`article_index.dfy`): the `Map` as an insertion-ordered
  `Collection` value, `populateArticleMap` as a loop proved against the
  specification function `Populated`, `findIndex`, removal of the first
  same-titled entry, and filing a saved article.
- `App` (`app.dfy`): the application as a class with the collection, the mode
  and the selected article as fields, and its handlers.
- `IndexBar` (`index_bar.dfy`): the initial section, the derived-state rule,
  the section change, the sorted headings and the in-place title sort.
- `Editor` (`editor.dfy`): the editor form as a class with two draft fields.

The main invariant is `App.App.Valid`. It says that every article is filed
under its own label, that the key order lists each key once, and that the
selected article is stored in its own section. Every handler keeps it.

## Model

| member | source | states |
|---|---|---|
| Articles.ToUpper | src/App.js:22 | The label character is never a lower-case ASCII letter; lower-case letters map to their upper-case partner and every other character is kept |
| ArticleIndex.Collection.Set | src/App.js:26 | `Map.set`: the entry under the key becomes the new list; an existing key keeps its place in the key order and a new key goes last; a consistent key order stays consistent |
| ArticleIndex.PopulateArticleMap | src/App.js:18-31 | The loop builds exactly `Populated(articles)`. Every list is its label's share of the input in input order and is not empty, and labels that occur nowhere have no key. The key order is the order of the labels' first appearance. The concatenated lists hold exactly the input articles as a multiset |
| ArticleIndex.PopulatedWellFormed | src/App.js:21-28 | Every article of the populated collection is filed under its own label, and its key order lists each key exactly once |
| ArticleIndex.PopulatedKeys | src/App.js:23-27 | The keys of the populated map are exactly the keys in its order list |
| ArticleIndex.PopulatedSections | src/App.js:21-28 | Each populated list equals the input articles with that label, in input order; a label that occurs nowhere has no key; no list is empty |
| ArticleIndex.PopulatedOrder | src/App.js:23-27 | The populated key order is the labels in order of first appearance in the input |
| ArticleIndex.PopulatedLabels | src/App.js:22-27 | The key set is exactly the set of labels of the input titles |
| ArticleIndex.Conserved | src/App.js:21-28 | Lists that are the sections of the input, keyed in first-label order, hold exactly the input as a multiset |
| ArticleIndex.FirstLabelsCover | src/App.js:22-26 | The first-appearance labels are distinct; every input label is among them and each has an input article carrying it |
| ArticleIndex.FirstLabelsHead | src/App.js:26 | The first key set is the label of the first article |
| ArticleIndex.FlattenIsSections | src/App.js:21-28 | (helper of Conserved) Concatenating lists that are the input's sections gives the concatenation of the sections |
| ArticleIndex.SectionsOfEmpty | src/App.js:21 | (helper of SectionsConserve) With no input articles, every section is empty |
| ArticleIndex.SectionsGrow | src/App.js:24 | (helper of SectionsConserve) One more input article adds it to the section of its label and nowhere else |
| ArticleIndex.SectionsConserve | src/App.js:21-28 | Splitting the input by distinct labels that cover it neither loses nor duplicates an article |
| ArticleIndex.FindIndex | src/App.js:69-71 | `findIndex` returns -1 exactly when no article has the title; otherwise it returns the first position holding the title |
| ArticleIndex.RemoveFirst | src/App.js:69-74 | Removing never lengthens the list and never introduces an article |
| ArticleIndex.RemoveFirstNoMatch | src/App.js:72 | With no matching title the list is unchanged, as when the `index > -1` guard fails |
| ArticleIndex.RemoveFirstAt | src/App.js:72-73 | `splice(index, 1)` at the first match removes exactly that entry; the entries before and after keep their order, and the list is one shorter |
| ArticleIndex.RemoveFirstShrinks | src/App.js:69-74 | A list holding some article with the title loses exactly one entry |
| ArticleIndex.Add | src/App.js:78-83 | The article is appended to the end of its label's list, which is created when absent; the key set gains only that label; a new label goes last in the key order and an existing one leaves the order alone; every other list is unchanged; every article stays filed under its own label |
| ArticleIndex.Remove | src/App.js:67-75 | The old label's list loses its first entry with the old title; the key order is unchanged, so no key is deleted; the labelling is kept |
| ArticleIndex.Saved | src/App.js:63-83 | An accepted save keeps every key and adds the new label; the key order is kept, with the new label appended last when it was absent; the labelling is kept |
| ArticleIndex.SaveReplaces | src/App.js:64-83 | A replacing save removes the first same-titled entry from the old label's list and appends the new article to its own label's list; when the two labels coincide the new list is the reduced one with the article appended; every other list is unchanged |
| ArticleIndex.SaveMoves | src/App.js:64-83 | Editing a stored article into a new section shrinks the old section by exactly one and puts the new article last in its section |
| ArticleIndex.ReorderKeepsWellFormed | src/components/IndexBar.js:72 | Putting a permutation of a section back under its key keeps the labelling and the key order, and the section holds the same articles |
| ArticleIndex.RemoveAfterAppend | src/App.js:69-80 | Appending an article with a title new to the list and then removing that title gives back the list |
| ArticleIndex.RemoveAfterAdd | src/App.js:64-83 | Filing an article with a new title and then removing it restores every list; a key that the filing created stays, with an empty list |
| App.App.constructor | src/App.js:34-57 | The collection is populated from the seed list (every list is its label's share, keys in first-appearance order); the mode is view and nothing is selected |
| App.App.HandleEditorReturn | src/App.js:62-91 | A cancel leaves the collection and the selection unchanged. A save files the article as `Saved` describes and selects it. Either way the mode becomes view and the invariant holds |
| App.App.NewArticle | src/App.js:100-106 | The New button switches to edit and clears the selection; the collection is unchanged |
| App.App.EditArticle | src/App.js:107-111 | The Edit button switches to edit and keeps the selection and the collection |
| App.App.OpenEditor | src/App.js:145 | The editor opens on the selected article's title and extract, or blank for a new article |
| App.App.Select | src/App.js:134 | The `select` callback sets the selection to the given article (or none) and keeps the invariant |
| App.App.Buttons | src/App.js:97-126 | The New button is offered exactly in view mode; the Edit button exactly in view mode with an article selected |
| IndexBar.InitialSectionIsKey | src/components/IndexBar.js:102-106 | The first section is a key of the collection, and there is no first section only when the collection is empty and nothing is selected |
| IndexBar.SeedSection | src/components/IndexBar.js:102-106 | Over a freshly populated collection with nothing selected, the first section is the first seed article's label, or none for an empty seed list |
| IndexBar.DerivedStateFromProps | src/components/IndexBar.js:116-124 | An update is returned exactly when an article is selected and no section is chosen, and it chooses the article's label |
| IndexBar.DerivedStateSettles | src/components/IndexBar.js:116-124 | Applying the rule once leaves nothing more to update, and the constructor's first section already needs no update |
| IndexBar.AscendingIsStrictlySorted | src/components/IndexBar.js:149 | An ascending heading list has every label below every later one, so no heading repeats |
| IndexBar.AscendingCons | src/components/IndexBar.js:149 | (helper of InsertLabel) A label below the head of an ascending list can be put in front of it |
| IndexBar.InsertLabel | src/components/IndexBar.js:149 | Inserting a new label into an ascending list keeps it ascending and one longer; its head is the new label or the old head |
| IndexBar.InsertLabelAdds | src/components/IndexBar.js:149 | The insertion adds exactly the new label to the multiset of labels |
| IndexBar.SortedSections | src/components/IndexBar.js:149 | The sorted headings are ascending and are a permutation of the distinct keys |
| IndexBar.TitleLeTotal | src/components/IndexBar.js:72 | Any two titles are comparable |
| IndexBar.TitleLeTransitive | src/components/IndexBar.js:72 | The title order is transitive |
| IndexBar.SortedByTitlePairwise | src/components/IndexBar.js:72 | In a list sorted by title, every title is at most every later one |
| IndexBar.InsertByTitle | src/components/IndexBar.js:72 | Inserting into a title-sorted list keeps it sorted and adds exactly that article |
| IndexBar.SortByTitle | src/components/IndexBar.js:72 | The sorted titles are sorted by title and a permutation of the section |
| IndexBar.IndexBar.constructor | src/components/IndexBar.js:99-106 | The bar starts on the initial section: the selected article's label, else the first key set, else none |
| IndexBar.IndexBar.ApplyDerivedState | src/components/IndexBar.js:116-124 | Before a render the section becomes the derived one when the rule returns an update, and stays otherwise |
| IndexBar.IndexBar.HandleSectionChange | src/components/IndexBar.js:126-131 | A different section is chosen and the article deselected; choosing the current section changes nothing; the collection and mode are untouched |
| IndexBar.IndexBar.Sections | src/components/IndexBar.js:149 | The headings are strictly ascending, hence distinct, and are exactly the keys of the collection |
| IndexBar.IndexBar.ShowTitles | src/components/IndexBar.js:69-75 | The chosen section's list is sorted by title in place: it becomes a permutation of its former contents, sorted by title; the rest of the collection, the keys and the selection are unchanged |
| IndexBar.IndexBar.ClickTitle | src/components/IndexBar.js:78-80 | Clicking a title selects exactly that article and changes nothing else |
| Editor.Editor.constructor | src/components/Editor.js:31-37 | The draft is the edited article's title and extract, or two empty strings for a new article |
| Editor.Editor.HandleTextUpdate | src/components/Editor.js:48-50 | A keystroke sets only the named field to the new text; the other field is unchanged |
| Editor.Editor.HandleSave | src/components/Editor.js:52-60 | Save hands back the draft title and extract with the current time as `edited`, never the old time stamp; the article has a title exactly when the Save button is enabled (line 86) |
| Editor.Editor.HandleCancel | src/components/Editor.js:62-64 | Cancel hands back no article |

## Left out

- Rendering is not modelled: JSX, styled components, prop types and the article view with its locale-dependent dates.
- The clock is not modelled. `new Date().toISOString()` becomes the `now` parameter of `Editor.Editor.HandleSave`.
- The seed data file and the test set-up (enzyme configuration and button lookup) are not part of this model.
- React's scheduling is not modelled. Each handler is one synchronous state update, and `setState` batching and lifecycle order are left out. `getDerivedStateFromProps` is applied explicitly by `IndexBar.IndexBar.ApplyDerivedState`.
- IndexBar.TitleLe: titles are compared by plain lexicographic order on character codes, not by `localeCompare`. Section headings use the same order on `char` in place of the default sort's UTF-16 order.
- IndexBar.SortByTitle: it is a reference insertion sort. It is proved sorted and a permutation. The stability of `Array.prototype.sort` is not stated.
- Articles.ToUpper: it upper-cases ASCII letters only, not all of Unicode.
- Articles.Label: it takes the title's first Unicode character, where JavaScript's `title[0]` is the first UTF-16 code unit. Two titles that begin with different characters outside the Basic Multilingual Plane share a section in the application (their common high surrogate) but get two sections in the model.
- Articles.Titled: a title must be non-empty wherever a label is taken. JavaScript would throw on `title[0]` of an empty title, so the model makes that a precondition.
- App.App.HandleEditorReturn: it takes `App.App.Valid` as a precondition. Under that invariant the selected article's section always exists and always holds an entry with its title. The crash path (section missing) and the `index > -1` guard failing are therefore unreachable. The second is proved, as an `assert false` in that branch.
- IndexBar.IndexBar.constructor: the index bar is rendered only while browsing, so every trip through the editor unmounts it, and the return to browsing builds a new bar. The constructor stands for that rebuilding. An `IndexBar` object kept across an edit, still holding its old section, has no counterpart in the application.
- IndexBar.IndexBar.HandleSectionChange: it requires the new section to be a key. The only caller is the heading list, which offers exactly the keys.
- Aliasing is modelled by writing back. The title list shares the array stored in the `Map`, so the in-place sort reorders the stored section. `IndexBar.IndexBar.ShowTitles` models this by writing the sorted list back under its key.
- The application's `Map` is a `Collection` value. The class field `App.App.collection` is reassigned, in place of mutating the arrays it holds.
- No key is ever deleted, even when a section becomes empty after a replacing save. The model keeps such keys, as the code does. `ArticleIndex.RemoveAfterAdd` states the resulting empty list.
