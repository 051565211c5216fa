/**
 * The database behind the catalog, reduced to its two keyed tables and the
 * four statements the catalog issues against them. Connecting, creating the
 * tables and reading them back at start-up are not part of this model.
 */
module Store {
  import opened Wrappers
  import opened Json
  import opened Records

  /** The `books` table keyed by `id` and the `users` table keyed by `userId`. */
  datatype Tables = Tables(books: map<Int32, Book>, users: map<Int32, User>)

  /** A statement the catalog sends after an accepted change. */
  datatype Write =
    | SaveBook(book: Book)        // INSERT ... ON DUPLICATE KEY UPDATE on books
    | SaveUser(user: User)        // INSERT ... ON DUPLICATE KEY UPDATE on users
    | RemoveBook(id: Int32)       // DELETE FROM books WHERE id = ?
    | RemoveUser(userId: Int32)   // DELETE FROM users WHERE userId = ?

  /** The effect of a statement that the database carried out. */
  function Apply(t: Tables, w: Write): (r: Tables)
    ensures w.SaveBook? ==>
      && r.users == t.users
      && w.book.id in r.books && r.books[w.book.id] == w.book
      && r.books - {w.book.id} == t.books - {w.book.id}
    ensures w.SaveUser? ==>
      && r.books == t.books
      && w.user.userId in r.users && r.users[w.user.userId] == w.user
      && r.users - {w.user.userId} == t.users - {w.user.userId}
    ensures w.RemoveBook? ==> r.users == t.users && w.id !in r.books && r.books - {w.id} == t.books - {w.id}
    ensures w.RemoveUser? ==> r.books == t.books && w.userId !in r.users && r.users - {w.userId} == t.users - {w.userId}
  {
    match w
    case SaveBook(b) => t.(books := t.books[b.id := b])
    case SaveUser(u) => t.(users := t.users[u.userId := u])
    case RemoveBook(id) => t.(books := t.books - {id})
    case RemoveUser(id) => t.(users := t.users - {id})
  }

  /**
   * Best-effort write-through: the statement takes effect unless it fails
   * (`fault`), and a failure is swallowed, so the tables then stay as they were.
   */
  function WriteThrough(t: Tables, w: Option<Write>, fault: bool): (r: Tables)
    ensures fault || w.None? ==> r == t
    ensures !fault && w.Some? ==> r == Apply(t, w.value)
  {
    if w.Some? && !fault then Apply(t, w.value) else t
  }
}
