/** Catalog items as the search service returns them. */
module Catalog {

  /** One search hit: the fields the search service projects (rating left out). */
  datatype Book = Book(isbn13: string, title: string, author: string)

  /** The set of ISBNs occurring in a sequence of items. */
  function Isbns(items: seq<Book>): set<string> {
    set i | 0 <= i < |items| :: items[i].isbn13
  }

  /** No two items share an ISBN. */
  predicate UniqueIsbns(items: seq<Book>) {
    forall i, j :: 0 <= i < j < |items| ==> items[i].isbn13 != items[j].isbn13
  }
}
