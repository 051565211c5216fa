/**
 * The server's state and route handlers: the two catalog vectors, the
 * database tables behind them, and one method per route. Every mutating
 * method is proved to do what the matching function of `Handlers` says.
 */
module Service {
  import opened Wrappers
  import opened Json
  import opened Records
  import opened Keyed
  import opened Store
  import opened Handlers
  import opened Properties

  class Library {
    /** `libraryBooks`, in vector order. */
    var books: seq<Book>
    /** `libraryUsers`, in vector order. */
    var users: seq<User>
    /** The database tables the catalog writes through to. */
    var tables: Tables

    /** The catalog as a value. */
    function Snapshot(): Catalog
      reads this
    {
      Catalog(books, users)
    }

    /** No two books share an id and no two users share a userId. */
    ghost predicate Valid()
      reads this
    {
      Handlers.Valid(Snapshot())
    }

    /**
     * Start-up: the vectors hold the rows the two table scans returned, in
     * the order they returned them. A scan returns each row of its table
     * once, and `id` and `userId` are the tables' primary keys, so the rows
     * carry unique ids and are exactly the tables' contents.
     */
    constructor (store: Tables, bookRows: seq<Book>, userRows: seq<User>)
      requires Unique(bookRows, BookKey) && Unique(userRows, UserKey)
      requires Mirrors(Catalog(bookRows, userRows), store)
      ensures books == bookRows && users == userRows && tables == store
      ensures Valid() && Mirrors(Snapshot(), tables)
    {
      books := bookRows;
      users := userRows;
      tables := store;
    }

    /** `findBookById`: the position of the first book with this id, scanning from the front. */
    method FindBookById(id: Int32) returns (r: Option<nat>)
      ensures r == FirstWithKey(books, BookKey, id)
    {
      var i := 0;
      while i < |books|
        invariant 0 <= i <= |books|
        invariant forall j :: 0 <= j < i ==> books[j].id != id
      {
        if books[i].id == id {
          return Some(i);
        }
        i := i + 1;
      }
      return None;
    }

    /** `findUserById`: the position of the first user with this userId, scanning from the front. */
    method FindUserById(id: Int32) returns (r: Option<nat>)
      ensures r == FirstWithKey(users, UserKey, id)
    {
      var i := 0;
      while i < |users|
        invariant 0 <= i <= |users|
        invariant forall j :: 0 <= j < i ==> users[j].userId != id
      {
        if users[i].userId == id {
          return Some(i);
        }
        i := i + 1;
      }
      return None;
    }

    /** `saveBookToDB`: upsert of the book's row; a failure is swallowed. */
    method SaveBookToDb(b: Book, fault: bool)
      modifies this`tables
      ensures tables == WriteThrough(old(tables), Some(SaveBook(b)), fault)
    {
      if !fault {
        tables := tables.(books := tables.books[b.id := b]);
      }
    }

    /** `saveUserToDB`: upsert of the user's row; a failure is swallowed. */
    method SaveUserToDb(u: User, fault: bool)
      modifies this`tables
      ensures tables == WriteThrough(old(tables), Some(SaveUser(u)), fault)
    {
      if !fault {
        tables := tables.(users := tables.users[u.userId := u]);
      }
    }

    /** `deleteBookFromDB`: deletion of the row with this id; a failure is swallowed. */
    method DeleteBookFromDb(id: Int32, fault: bool)
      modifies this`tables
      ensures tables == WriteThrough(old(tables), Some(RemoveBook(id)), fault)
    {
      if !fault {
        tables := tables.(books := tables.books - {id});
      }
    }

    /** `deleteUserFromDB`: deletion of the row with this userId; a failure is swallowed. No route calls it. */
    method DeleteUserFromDb(id: Int32, fault: bool)
      modifies this`tables
      ensures tables == WriteThrough(old(tables), Some(RemoveUser(id)), fault)
    {
      if !fault {
        tables := tables.(users := tables.users - {id});
      }
    }

    /** GET /books: every book as `to_json` renders it, in vector order. */
    method ListBooks() returns (arr: seq<Object>)
      ensures |arr| == |books|
      ensures forall i :: 0 <= i < |books| ==> arr[i] == BookToJson(books[i])
      ensures forall i :: 0 <= i < |books| ==> BookFromJson(arr[i]) == Success(books[i])
    {
      arr := [];
      var i := 0;
      while i < |books|
        invariant 0 <= i <= |books|
        invariant |arr| == i
        invariant forall k :: 0 <= k < i ==> arr[k] == BookToJson(books[k])
      {
        arr := arr + [BookToJson(books[i])];
        i := i + 1;
      }
      forall i | 0 <= i < |books| ensures BookFromJson(arr[i]) == Success(books[i]) {
        BookRoundTrip(books[i]);
      }
    }

    /** GET /users: every user as `to_json` renders it, in vector order. */
    method ListUsers() returns (arr: seq<Object>)
      ensures |arr| == |users|
      ensures forall i :: 0 <= i < |users| ==> arr[i] == UserToJson(users[i])
      ensures forall i :: 0 <= i < |users| ==> UserFromJson(arr[i]) == Success(users[i])
    {
      arr := [];
      var i := 0;
      while i < |users|
        invariant 0 <= i <= |users|
        invariant |arr| == i
        invariant forall k :: 0 <= k < i ==> arr[k] == UserToJson(users[k])
      {
        arr := arr + [UserToJson(users[i])];
        i := i + 1;
      }
      forall i | 0 <= i < |users| ensures UserFromJson(arr[i]) == Success(users[i]) {
        UserRoundTrip(users[i]);
      }
    }

    /** GET /books/<id>: the first book with this id, or 404. */
    method GetBook(id: Int32) returns (status: Status, body: Option<Object>)
      ensures status == Ok || status == NotFound
      ensures status == NotFound <==> forall i :: 0 <= i < |books| ==> books[i].id != id
      ensures status == NotFound ==> body == None
      ensures status == Ok ==> body == Some(BookToJson(books[FirstWithKey(books, BookKey, id).value]))
      ensures status == Ok ==>
        && body.Some?
        && BookFromJson(body.value) == Success(books[FirstWithKey(books, BookKey, id).value])
    {
      var found := FindBookById(id);
      if found.None? {
        return NotFound, None;
      }
      BookRoundTrip(books[found.value]);
      return Ok, Some(BookToJson(books[found.value]));
    }

    /** POST /books. */
    method AddBook(body: Option<Object>, fault: bool) returns (status: Status)
      requires Valid()
      modifies this
      ensures var r := Handlers.AddBook(old(Snapshot()), body);
        status == r.status && Snapshot() == r.catalog && tables == WriteThrough(old(tables), r.write, fault)
      ensures Valid()
      ensures old(Mirrors(Snapshot(), tables)) && !fault ==> Mirrors(Snapshot(), tables)
    {
      if Mirrors(Snapshot(), tables) {
        AddBookKeepsMirror(Snapshot(), tables, body);
      }
      if !(Has(body, "id") && Has(body, "title") && Has(body, "author")) {
        return BadInput;
      }
      var id := IntAt(body.value, "id");
      if id.Failure? {
        return ServerError;
      }
      var found := FindBookById(id.value);
      if found.Some? {
        return Conflict;
      }
      var b := BookFromJson(body.value);
      if b.Failure? {
        return ServerError;
      }
      books := books + [b.value];
      SaveBookToDb(b.value, fault);
      return Ok;
    }

    /**
     * `remove_if` followed by `erase`: the books whose id is not `id`, moved
     * to the front in their order, and the rest dropped.
     */
    method RemoveIf(id: Int32) returns (kept: seq<Book>)
      ensures kept == Without(books, BookKey, id)
    {
      kept := [];
      var i := 0;
      while i < |books|
        invariant 0 <= i <= |books|
        invariant kept == Without(books[..i], BookKey, id)
      {
        assert books[..i + 1][..i] == books[..i];
        if books[i].id != id {
          kept := kept + [books[i]];
        }
        i := i + 1;
      }
      assert books[..i] == books;
    }

    /** DELETE /books/<id>: 404 when `remove_if` found nothing to erase. */
    method DeleteBook(id: Int32, fault: bool) returns (status: Status)
      requires Valid()
      modifies this
      ensures var r := Handlers.DeleteBook(old(Snapshot()), id);
        status == r.status && Snapshot() == r.catalog && tables == WriteThrough(old(tables), r.write, fault)
      ensures Valid()
      ensures old(Mirrors(Snapshot(), tables)) && !fault ==> Mirrors(Snapshot(), tables)
    {
      if Mirrors(Snapshot(), tables) {
        DeleteBookKeepsMirror(Snapshot(), tables, id);
      }
      ghost var r := Handlers.DeleteBook(Snapshot(), id);
      var kept := RemoveIf(id);
      WithoutShrinks(books, BookKey, id);
      if |kept| == |books| {
        assert r == Reply(NotFound, Snapshot(), None);
        return NotFound;
      }
      assert r == Reply(Ok, Catalog(kept, users), Some(RemoveBook(id)));
      books := kept;
      DeleteBookFromDb(id, fault);
      return Ok;
    }

    /** POST /books/<bookId>/issue. */
    method IssueBook(bookId: Int32, body: Option<Object>, fault: bool) returns (status: Status)
      requires Valid()
      modifies this
      ensures var r := Handlers.IssueBook(old(Snapshot()), bookId, body);
        status == r.status && Snapshot() == r.catalog && tables == WriteThrough(old(tables), r.write, fault)
      ensures Valid()
      ensures old(Mirrors(Snapshot(), tables)) && !fault ==> Mirrors(Snapshot(), tables)
    {
      if Mirrors(Snapshot(), tables) {
        IssueBookKeepsMirror(Snapshot(), tables, bookId, body);
      }
      if !Has(body, "userId") {
        return BadInput;
      }
      var userId := IntAt(body.value, "userId");
      if userId.Failure? {
        return ServerError;
      }
      var b := FindBookById(bookId);
      if b.None? {
        return NotFound;
      }
      if !books[b.value].isAvailable {
        return Conflict;
      }
      var u := FindUserById(userId.value);
      if u.None? {
        return NotFound;
      }
      books := books[b.value := books[b.value].(isAvailable := false)];
      SaveBookToDb(books[b.value], fault);
      return Ok;
    }

    /** POST /books/<bookId>/return. */
    method ReturnBook(bookId: Int32, fault: bool) returns (status: Status)
      requires Valid()
      modifies this
      ensures var r := Handlers.ReturnBook(old(Snapshot()), bookId);
        status == r.status && Snapshot() == r.catalog && tables == WriteThrough(old(tables), r.write, fault)
      ensures Valid()
      ensures old(Mirrors(Snapshot(), tables)) && !fault ==> Mirrors(Snapshot(), tables)
    {
      if Mirrors(Snapshot(), tables) {
        ReturnBookKeepsMirror(Snapshot(), tables, bookId);
      }
      var b := FindBookById(bookId);
      if b.None? {
        return NotFound;
      }
      if books[b.value].isAvailable {
        return Conflict;
      }
      books := books[b.value := books[b.value].(isAvailable := true)];
      SaveBookToDb(books[b.value], fault);
      return Ok;
    }

    /** POST /users. */
    method AddUser(body: Option<Object>, fault: bool) returns (status: Status)
      requires Valid()
      modifies this
      ensures var r := Handlers.AddUser(old(Snapshot()), body);
        status == r.status && Snapshot() == r.catalog && tables == WriteThrough(old(tables), r.write, fault)
      ensures Valid()
      ensures old(Mirrors(Snapshot(), tables)) && !fault ==> Mirrors(Snapshot(), tables)
    {
      if Mirrors(Snapshot(), tables) {
        AddUserKeepsMirror(Snapshot(), tables, body);
      }
      if !(Has(body, "userId") && Has(body, "userName")) {
        return BadInput;
      }
      var userId := IntAt(body.value, "userId");
      if userId.Failure? {
        return ServerError;
      }
      var found := FindUserById(userId.value);
      if found.Some? {
        return Conflict;
      }
      var u := UserFromJson(body.value);
      if u.Failure? {
        return ServerError;
      }
      users := users + [u.value];
      SaveUserToDb(u.value, fault);
      return Ok;
    }
  }
}
