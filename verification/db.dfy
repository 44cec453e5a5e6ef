/** The in-memory store (src/db.js): two insertion-ordered collections that
    the resolvers read and that `addBook` appends to, started with fixed seed
    records. */
module Db {
  import opened Schema

  const SeedBooks: seq<Book> := [
    Book("1", "The Awakening", Some(1899), "1"),
    Book("2", "City of Glass", Some(1985), "2")
  ]

  const SeedAuthors: seq<Author> := [
    Author("1", "Kate Chopin",
           Some("Kate Chopin (born Katherine O'Flaherty; February 8, 1850 \U{2013} August 22, 1904) "
              + "was an American author of short stories and novels based in Louisiana.")),
    Author("2", "Paul Auster",
           Some("Paul Benjamin Auster (February 3, 1947 \U{2013} April 30, 2024) "
              + "was an American writer and film director."))
  ]

  /** The module-level mutable arrays `books` and `authors`. */
  class Store {
    var books: seq<Book>
    var authors: seq<Author>

    /** A freshly loaded module: the two seed books and the two seed authors. */
    constructor ()
      ensures books == SeedBooks && authors == SeedAuthors
    {
      books := SeedBooks;
      authors := SeedAuthors;
    }
  }

  /** No two books share an id (intended; random ids can break it). */
  predicate BookIdsDistinct(books: seq<Book>) {
    forall i, j :: 0 <= i < j < |books| ==> books[i].id != books[j].id
  }

  /** No two authors share an id. */
  predicate AuthorIdsDistinct(authors: seq<Author>) {
    forall i, j :: 0 <= i < j < |authors| ==> authors[i].id != authors[j].id
  }

  /** Some author carries the id `id`. */
  predicate AuthorExists(authors: seq<Author>, id: string) {
    exists k :: 0 <= k < |authors| && authors[k].id == id
  }

  /** Every book's `authorId` names a stored author (intended, not enforced). */
  predicate ReferencesResolve(books: seq<Book>, authors: seq<Author>) {
    forall i :: 0 <= i < |books| ==> AuthorExists(authors, books[i].authorId)
  }

  /** The seed has distinct book ids, distinct author ids, and no dangling
      `authorId`. */
  lemma SeedWellFormed()
    ensures BookIdsDistinct(SeedBooks) && AuthorIdsDistinct(SeedAuthors)
    ensures ReferencesResolve(SeedBooks, SeedAuthors)
  {
    assert SeedAuthors[0].id == SeedBooks[0].authorId;
    assert SeedAuthors[1].id == SeedBooks[1].authorId;
  }

  /** Appending a book keeps the ids distinct exactly when its id is new. */
  lemma AppendKeepsIdsDistinct(books: seq<Book>, b: Book)
    requires BookIdsDistinct(books)
    ensures BookIdsDistinct(books + [b]) <==> forall i :: 0 <= i < |books| ==> books[i].id != b.id
  {
    var t := books + [b];
    assert forall i :: 0 <= i < |books| ==> t[i] == books[i];
    assert t[|books|] == b;
    if !BookIdsDistinct(t) {
      var i, j :| 0 <= i < j < |t| && t[i].id == t[j].id;
      assert j == |books|;
    }
  }

  /** Appending a book keeps every reference resolvable exactly when its
      `authorId` names a stored author. */
  lemma AppendKeepsReferences(books: seq<Book>, authors: seq<Author>, b: Book)
    requires ReferencesResolve(books, authors)
    ensures ReferencesResolve(books + [b], authors) <==> AuthorExists(authors, b.authorId)
  {
    var t := books + [b];
    assert t[|books|] == b;
    assert forall i :: 0 <= i < |books| ==> t[i] == books[i];
  }
}
