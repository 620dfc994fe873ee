/** The article record and the section label derived from its title. */
module Articles {

  datatype Option<+T> = None | Some(value: T)

  /** An encyclopedia entry; `edited` is an opaque ISO-8601 time stamp. */
  datatype Article = Article(title: string, extract: string, edited: string)

  predicate IsLowerAscii(c: char) {
    'a' <= c <= 'z'
  }

  /** ASCII upper-casing of one character; every other character is kept. */
  function ToUpper(c: char): (u: char)
    ensures !IsLowerAscii(u)
    ensures !IsLowerAscii(c) ==> u == c
    ensures IsLowerAscii(c) ==> 'A' <= u <= 'Z' && u as int + 32 == c as int
  {
    if IsLowerAscii(c) then (c as int - 32) as char else c
  }

  /** A title can be filed only when it has a first character. */
  predicate Titled(a: Article) {
    |a.title| > 0
  }

  /** The section an article belongs to: its title's first character, upper-cased. */
  function Label(a: Article): char
    requires Titled(a)
  {
    ToUpper(a.title[0])
  }

  predicate AllTitled(s: seq<Article>) {
    forall i :: 0 <= i < |s| ==> Titled(s[i])
  }
}
