/** The resolver map of src/resolvers.js: the four queries, the `addBook`
    mutation and the two relationship fields, over a `Db.Store`. */
module Resolvers {
  import opened Schema
  import ArrayOps
  import Ids
  import Db
  import Events

  const BOOK_ADDED_TOPIC: string := "BOOK_ADDED"

  /** The machine-readable part of a thrown `GraphQLError`: its `extensions`. */
  datatype GraphQLError = GraphQLError(code: string, argumentName: string)

  /** A field value, or the error that fails the field. */
  datatype Result<+T> = Ok(value: T) | Err(error: GraphQLError)

  const IdNotFound: GraphQLError := GraphQLError("NOT_FOUND", "id")

  /** The search predicates the resolvers hand to `find` and `filter`. */
  function BookHasId(id: string): Book -> bool {
    (b: Book) => b.id == id
  }

  function AuthorHasId(id: string): Author -> bool {
    (a: Author) => a.id == id
  }

  function WrittenBy(authorId: string): Book -> bool {
    (b: Book) => b.authorId == authorId
  }

  /** `Query.books`: the stored collection itself, in insertion order. */
  function QueryBooks(db: Db.Store): (r: seq<Book>)
    reads db
    ensures r == db.books
  {
    db.books
  }

  /** `Query.authors`: the stored collection itself, in insertion order. */
  function QueryAuthors(db: Db.Store): (r: seq<Author>)
    reads db
    ensures r == db.authors
  {
    db.authors
  }

  /** `Query.book(id)`: the first stored book with that id, or a NOT_FOUND
      error on argument "id" when there is none. */
  function QueryBook(db: Db.Store, id: string): (r: Result<Book>)
    reads db
    ensures r.Err? <==> forall i :: 0 <= i < |db.books| ==> db.books[i].id != id
    ensures r.Err? ==> r.error == IdNotFound
    ensures r.Ok? ==> exists i :: 0 <= i < |db.books| && db.books[i] == r.value && db.books[i].id == id &&
                                   forall j :: 0 <= j < i ==> db.books[j].id != id
  {
    match ArrayOps.Find(db.books, BookHasId(id))
    case Some(b) => Ok(b)
    case None => Err(IdNotFound)
  }

  /** `Query.author(id)`: the first stored author with that id, or a NOT_FOUND
      error on argument "id" when there is none. */
  function QueryAuthor(db: Db.Store, id: string): (r: Result<Author>)
    reads db
    ensures r.Err? <==> forall i :: 0 <= i < |db.authors| ==> db.authors[i].id != id
    ensures r.Err? ==> r.error == IdNotFound
    ensures r.Ok? ==> exists i :: 0 <= i < |db.authors| && db.authors[i] == r.value && db.authors[i].id == id &&
                                   forall j :: 0 <= j < i ==> db.authors[j].id != id
  {
    match ArrayOps.Find(db.authors, AuthorHasId(id))
    case Some(a) => Ok(a)
    case None => Err(IdNotFound)
  }

  /** `Book.author`: the first author whose id is the book's `authorId`; a
      dangling `authorId` gives nothing, not an error. */
  function BookAuthor(db: Db.Store, parent: Book): (r: Option<Author>)
    reads db
    ensures r.None? <==> !Db.AuthorExists(db.authors, parent.authorId)
    ensures r.Some? ==> exists i :: 0 <= i < |db.authors| && db.authors[i] == r.value &&
                                   db.authors[i].id == parent.authorId &&
                                   forall j :: 0 <= j < i ==> db.authors[j].id != parent.authorId
  {
    ArrayOps.Find(db.authors, AuthorHasId(parent.authorId))
  }

  /** `Author.books`: the stored books whose `authorId` is the author's id, in
      store order; empty when there are none. */
  function AuthorBooks(db: Db.Store, parent: Author): (r: seq<Book>)
    reads db
    ensures ArrayOps.IsSubsequence(r, db.books)
    ensures forall i :: 0 <= i < |r| ==> r[i].authorId == parent.id && r[i] in db.books
    ensures forall b :: multiset(r)[b] == if b.authorId == parent.id then multiset(db.books)[b] else 0
    ensures r == [] <==> forall j :: 0 <= j < |db.books| ==> db.books[j].authorId != parent.id
  {
    ArrayOps.Filter(db.books, WrittenBy(parent.id))
  }

  /** `Mutation.addBook(input)`: with `n` the integer drawn by
      `Math.floor(Math.random() * 10000)`, append a book with id `String(n)`
      and the input's fields, publish it on BOOK_ADDED, and return it. */
  method AddBook(db: Db.Store, pubsub: Events.PubSub, input: AddBookInput, n: int) returns (newBook: Book)
    requires 0 <= n < 10000
    modifies db, pubsub
    ensures newBook == Book(Ids.DecimalString(n), input.title, input.publishedYear, input.authorId)
    ensures db.books == old(db.books) + [newBook]
    ensures db.authors == old(db.authors)
    ensures pubsub.published == old(pubsub.published) + [Events.Message(BOOK_ADDED_TOPIC, newBook)]
    // A lookup of the new id finds the new book unless an older one has it.
    ensures QueryBook(db, newBook.id) ==
              if old(QueryBook(db, newBook.id)).Ok? then old(QueryBook(db, newBook.id)) else Ok(newBook)
    ensures forall id :: id != newBook.id ==> QueryBook(db, id) == old(QueryBook(db, id))
    // Each author's book list grows by the new book exactly when it is theirs.
    ensures forall a: Author :: AuthorBooks(db, a) ==
              old(AuthorBooks(db, a)) + if newBook.authorId == a.id then [newBook] else []
  {
    ghost var before := db.books;
    newBook := Book(Ids.DecimalString(n), input.title, input.publishedYear, input.authorId);
    db.books := db.books + [newBook];
    pubsub.Publish(BOOK_ADDED_TOPIC, newBook);

    forall id | true
      ensures ArrayOps.Find(db.books, BookHasId(id)) ==
                if ArrayOps.Find(before, BookHasId(id)).Some? then ArrayOps.Find(before, BookHasId(id))
                else if newBook.id == id then Some(newBook) else None
    {
      ArrayOps.FindAppend(before, newBook, BookHasId(id));
    }
    forall a: Author
      ensures AuthorBooks(db, a) == old(AuthorBooks(db, a)) +
                                     if newBook.authorId == a.id then [newBook] else []
    {
      assert old(AuthorBooks(db, a)) == ArrayOps.Filter(before, WrittenBy(a.id));
      ArrayOps.FilterAppend(before, [newBook], WrittenBy(a.id));
      assert ArrayOps.Filter([newBook], WrittenBy(a.id)) == if newBook.authorId == a.id then [newBook] else [];
    }
  }

  /** While book ids are distinct, looking up a stored book's id returns that
      very book. */
  lemma LookupStoredBook(db: Db.Store, b: Book)
    requires Db.BookIdsDistinct(db.books) && b in db.books
    ensures QueryBook(db, b.id) == Ok(b)
  {
  }

  /** While every reference resolves, `Book.author` finds an author for every
      stored book. */
  lemma StoredBooksHaveAuthors(db: Db.Store)
    requires Db.ReferencesResolve(db.books, db.authors)
    ensures forall i :: 0 <= i < |db.books| ==> BookAuthor(db, db.books[i]).Some?
  {
  }

  /** The freshly seeded store: both books resolve to their authors, and each
      author's book list is their one seeded book. */
  lemma SeedRelationships(db: Db.Store)
    requires db.books == Db.SeedBooks && db.authors == Db.SeedAuthors
    ensures BookAuthor(db, db.books[0]) == Some(db.authors[0])
    ensures BookAuthor(db, db.books[1]) == Some(db.authors[1])
    ensures AuthorBooks(db, db.authors[0]) == [db.books[0]]
    ensures AuthorBooks(db, db.authors[1]) == [db.books[1]]
  {
  }

  /** An id drawn as 1 collides with the first seed book: after that book is
      appended, looking up "1" still returns "The Awakening". */
  lemma CollidingIdFindsOlderBook(db: Db.Store, newBook: Book)
    requires db.books == Db.SeedBooks + [newBook] && newBook.id == Ids.DecimalString(1)
    ensures QueryBook(db, newBook.id) == Ok(Db.SeedBooks[0])
    ensures newBook != Db.SeedBooks[0] ==> QueryBook(db, newBook.id) != Ok(newBook)
  {
  }
}
