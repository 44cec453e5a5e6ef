/** The record shapes declared by the GraphQL schema (src/schema.js).

    Only the stored fields are modelled. `Book.author` and `Author.books` are
    not stored: they are computed by the resolvers in module Resolvers. */
module Schema {

  /** GraphQL's `Int` scalar: a signed 32-bit integer. */
  type Int32 = x: int | -0x8000_0000 <= x < 0x8000_0000

  /** An optional (nullable) field: `None` stands for a missing key or `null`. */
  datatype Option<+T> = None | Some(value: T)

  /** `type Book`: `publishedYear` is optional, the other fields are required. */
  datatype Book = Book(id: string, title: string, publishedYear: Option<Int32>, authorId: string)

  /** `type Author`: `bio` is optional. */
  datatype Author = Author(id: string, name: string, bio: Option<string>)

  /** `input AddBookInput`: `title` and `authorId` are required. It has no `id`. */
  datatype AddBookInput = AddBookInput(title: string, publishedYear: Option<Int32>, authorId: string)
}
