# Book/Author GraphQL store — a Dafny model

This project models the in-memory variant of a small GraphQL API for books and
authors. The store (`src/db.js`) holds two insertion-ordered collections,
`books` and `authors`, seeded with two records each. The resolvers
(`src/resolvers.js`) read these collections and append to `books`:

- `Query.books` and `Query.authors` return the whole collections.
- `Query.book(id)` and `Query.author(id)` use `Array.find`. A miss fails the
  field with a `NOT_FOUND` error on argument `id`.
- `Mutation.addBook(input)` builds a book with id `String(n)`, where
  `n = Math.floor(Math.random() * 10000)`. It pushes the book onto `books`,
  publishes it on topic `BOOK_ADDED`, and returns it.
- `Book.author` returns the first author with the book's `authorId`, or
  nothing.
- `Author.books` filters `books` by `authorId`.

Modules, one per component:

- `Schema` (`schema.dfy`): the `Book`, `Author` and `AddBookInput` records of
  the SDL. Optional fields are `Option`. GraphQL `Int` is a 32-bit range.
- `ArrayOps` (`array_ops.dfy`): `find` and `filter` over sequences, with
  their lemmas about appending.
- `Ids` (`ids.dfy`): `String(n)` for non-negative integers, and its inverse.
- `Db` (`db.dfy`): the `Store` class, whose constructor installs the seed.
  Also the intended store invariants: distinct ids and resolvable references.
- `Events` (`events.dfy`): the publish side of `PubSub`, as a message log.
- `Resolvers` (`resolvers.dfy`): the resolver map over a `Db.Store`.
  `AddBook` is a method that modifies the store and the `PubSub`.

Ids are not unique in the code. Any drawn `n` can repeat an earlier id,
including the seed ids `"1"` and `"2"`. `Query.book` then keeps returning the
older record. The model follows the code here. As a result, the round trip
"addBook, then `Query.book` on the returned id gives the new book" holds only
when the id was not already stored. `AddBook`'s contract states both cases,
and `CollidingIdFindsOlderBook` shows the collision on the seed. Titles are
not checked for emptiness. `authorId` is not checked against the authors.

## Model

| member | source | states |
|---|---|---|
| ArrayOps.FirstIndex | src/resolvers.js:27 | The index of the first element satisfying the predicate: no earlier element satisfies it; nothing at all when no element does |
| ArrayOps.Find | src/resolvers.js:27 | `find` yields nothing exactly when no element matches; otherwise it yields an element that matches and that no earlier element precedes as a match |
| ArrayOps.FindAppend | src/resolvers.js:75 | After an append, `find` still returns the old first match; it returns the new element only when nothing before it matched |
| ArrayOps.Filter | src/resolvers.js:106 | `filter` keeps the matching elements as a subsequence, in order, each with its original multiplicity, and drops every other element; empty exactly when nothing matches |
| ArrayOps.FilterAppend | src/resolvers.js:106 | Filtering a concatenation is the concatenation of the filtered parts |
| ArrayOps.FilterAllMatch | src/resolvers.js:106 | A sequence whose elements all match filters to itself |
| Ids.DecimalString | src/resolvers.js:71 | `String(n)` is a non-empty string of decimal digits, with a leading zero only for 0, which renders as "0" |
| Ids.ParseDecimalString | src/resolvers.js:71 | Reading a rendered id as a decimal number gives back the integer |
| Ids.DecimalStringInjective | src/resolvers.js:71 | Two drawn integers give the same id exactly when they are equal |
| Ids.DecimalStringLength | src/resolvers.js:71 | An integer below 10^k renders in at most k digits |
| Ids.GeneratedIdShape | src/resolvers.js:71 | An id drawn from [0, 9999] is one to four decimal digits |
| Db.Store.constructor | src/db.js:7-33 | The fresh store holds exactly the two seed books ("The Awakening", "City of Glass") and the two seed authors (Kate Chopin, Paul Auster), in source order |
| Db.SeedWellFormed | src/db.js:7-33 | In the seed, book ids are distinct, author ids are distinct and every book's `authorId` names a seeded author |
| Db.AppendKeepsIdsDistinct | src/resolvers.js:70-75 | Appending a book keeps the book ids distinct exactly when its id is not already stored |
| Db.AppendKeepsReferences | src/resolvers.js:70-75 | Appending a book keeps every `authorId` resolvable exactly when the new book's `authorId` names a stored author |
| Events.PubSub.constructor | src/resolvers.js:13 | A new `PubSub` has published nothing |
| Events.PubSub.Publish | src/resolvers.js:79 | Publishing logs one message with the topic and the payload, after all earlier messages |
| Resolvers.QueryBooks | src/resolvers.js:23 | `Query.books` returns the stored book collection itself, in insertion order, and only reads the store |
| Resolvers.QueryAuthors | src/resolvers.js:47 | `Query.authors` returns the stored author collection itself, in insertion order, and only reads the store |
| Resolvers.QueryBook | src/resolvers.js:26-44 | `Query.book(id)` fails with NOT_FOUND on argument "id" exactly when no stored book has that id; otherwise it returns the first stored book with that id |
| Resolvers.QueryAuthor | src/resolvers.js:50-63 | `Query.author(id)` fails with NOT_FOUND on argument "id" exactly when no stored author has that id; otherwise it returns the first stored author with that id |
| Resolvers.BookAuthor | src/resolvers.js:98-100 | `Book.author` is absent, not an error, exactly when no author has the book's `authorId`; otherwise it is the first such author |
| Resolvers.AuthorBooks | src/resolvers.js:105-107 | `Author.books` is the subsequence of stored books whose `authorId` is the author's id, in store order and with every such book; empty exactly when there are none |
| Resolvers.AddBook | src/resolvers.js:69-82 | `addBook` appends one book carrying id `String(n)` and the input's title, year and authorId. Earlier books and all authors are unchanged. It publishes that book once on BOOK_ADDED and returns it. Afterwards `Query.book` on the new id returns the new book unless an older book has that id; other lookups are unchanged. Each author's book list gains the new book exactly when it is theirs |
| Resolvers.LookupStoredBook | src/resolvers.js:26-27 | While book ids are distinct, `Query.book` on a stored book's id returns that book |
| Resolvers.StoredBooksHaveAuthors | src/resolvers.js:98-100 | While every reference resolves, `Book.author` finds an author for every stored book |
| Resolvers.SeedRelationships | src/db.js:7-33 | On the seed, each book's `author` is its seeded author, and each author's `books` is their one seeded book |
| Resolvers.CollidingIdFindsOlderBook | src/resolvers.js:71-75 | If the drawn integer is 1, the new book's id collides with "The Awakening", and `Query.book` keeps returning the older book |

## Left out

- `Subscription.bookAdded` (src/resolvers.js:90-93) is not modelled. It is the library's `asyncIterator` fan-out to long-lived connections. Publishing is modelled only as an append to `Events.PubSub.published`.
- `Math.random` is not modelled. `AddBook` takes the drawn integer `n` as a parameter and requires `0 <= n < 10000`, the range of `Math.floor(Math.random() * 10000)`.
- Resolvers.AddBook: the push happens before the publish in the source. The contract states only the final store and log, not the order of the two side effects.
- `GraphQLError` message text ("Book not found.", "Author not found.") and Apollo's error formatting are not modelled. Only the `code` and `argumentName` extensions are kept.
- GraphQL argument validation and coercion are not modelled. The model starts from already-validated values, except that `Int` fields are restricted to the 32-bit range. This includes rejecting a missing required field and coercing `ID` values.
- src/index.js is not part of this model. It holds the Express/Apollo/WebSocket wiring, the plugins and the port binding.
- server.js and schema.js at the repository root are not part of this model. They form the MongoDB demo, which calls into an unseen Mongoose model and does network I/O.
- Concurrency is not modelled. Every operation is one atomic step on the store, as under JavaScript's single-threaded event loop.
