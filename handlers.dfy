/**
 * What each mutating route does to the catalog, as pure functions of the
 * catalog before the request and the parsed request. Every function answers
 * with the status the route sends, the catalog after the request, and the
 * statement (if any) written through to the database afterwards. The class
 * `Service.Library` is proved to behave as these functions say.
 */
module Handlers {
  import opened Wrappers
  import opened Json
  import opened Records
  import opened Keyed
  import opened Store

  /**
   * A route's answer, sent as 200, 400, 404, 409 and 500 in this order;
   * `ServerError` is the 500 sent when a handler throws.
   */
  datatype Status = Ok | BadInput | NotFound | Conflict | ServerError

  /** The two in-memory vectors, `libraryBooks` and `libraryUsers`. */
  datatype Catalog = Catalog(books: seq<Book>, users: seq<User>)

  /** No two books share an id and no two users share a userId. */
  ghost predicate Valid(c: Catalog) {
    Unique(c.books, BookKey) && Unique(c.users, UserKey)
  }

  /** A route's status, the catalog it leaves, and the statement it writes through. */
  datatype Reply = Reply(status: Status, catalog: Catalog, write: Option<Write>)

  /**
   * Whether a request body has a member `name`. A body is `None` when it is
   * not a JSON object (unparsable, or another kind of value): `contains` is
   * false for every name then.
   */
  function Has(body: Option<Object>, name: string): (r: bool)
    ensures r ==> body.Some? && At(body.value, name).Success?
    ensures !r && body.Some? ==> At(body.value, name) == Failure(MissingMember(name))
  {
    body.Some? && name in body.value
  }

  /** The `userId` of an issue request, when it is present and converts to an `int`. */
  function RequestedUser(body: Option<Object>): (r: Option<Int32>)
    ensures r.Some? <==>
      && body.Some? && "userId" in body.value
      && (body.value["userId"].JInt? || body.value["userId"].JBool?)
    ensures r.Some? && body.value["userId"].JInt? ==> (body.value["userId"].i - r.value as int) % 0x1_0000_0000 == 0
    ensures r.Some? && body.value["userId"].JBool? ==> r.value == if body.value["userId"].b then 1 else 0
  {
    if Has(body, "userId") && IntAt(body.value, "userId").Success?
    then Some(IntAt(body.value, "userId").value)
    else None
  }

  /** POST /books. */
  function AddBook(c: Catalog, body: Option<Object>): (r: Reply)
    ensures r.status == BadInput <==> !(Has(body, "id") && Has(body, "title") && Has(body, "author"))
    ensures r.status == Conflict <==>
      && Has(body, "id") && Has(body, "title") && Has(body, "author")
      && IntAt(body.value, "id").Success?
      && FirstWithKey(c.books, BookKey, IntAt(body.value, "id").value).Some?
    ensures r.status == Ok <==>
      && Has(body, "id") && Has(body, "title") && Has(body, "author")
      && BookFromJson(body.value).Success?
      && FirstWithKey(c.books, BookKey, BookFromJson(body.value).value.id).None?
    ensures r.status != NotFound
    ensures r.status != Ok ==> r.catalog == c && r.write.None?
    ensures r.status == Ok ==>
      var b := BookFromJson(body.value).value;
      r.catalog == Catalog(c.books + [b], c.users) && r.write == Some(SaveBook(b))
    ensures Valid(c) ==> Valid(r.catalog)
  {
    if !(Has(body, "id") && Has(body, "title") && Has(body, "author")) then Reply(BadInput, c, None)
    else
      var j := body.value;
      match IntAt(j, "id")
      case Failure(_) => Reply(ServerError, c, None)
      case Success(id) =>
        if FirstWithKey(c.books, BookKey, id).Some? then Reply(Conflict, c, None)
        else
          match BookFromJson(j)
          case Failure(_) => Reply(ServerError, c, None)
          case Success(b) =>
            Reply(Ok, Catalog(c.books + [b], c.users), Some(SaveBook(b)))
  }

  /** DELETE /books/<id>. */
  function DeleteBook(c: Catalog, id: Int32): (r: Reply)
    ensures r.status == Ok || r.status == NotFound
    ensures r.status == NotFound <==> FirstWithKey(c.books, BookKey, id).None?
    ensures r.status == NotFound ==> r.catalog == c && r.write.None?
    ensures r.status == Ok ==>
      && r.catalog.users == c.users
      && r.write == Some(RemoveBook(id))
      && |r.catalog.books| < |c.books|
      && (forall i :: 0 <= i < |r.catalog.books| ==> r.catalog.books[i] in c.books && r.catalog.books[i].id != id)
      && (forall i :: 0 <= i < |c.books| && c.books[i].id != id ==> c.books[i] in r.catalog.books)
    ensures r.status == Ok ==> r.catalog.books == Without(c.books, BookKey, id)
    ensures r.status == Ok && Valid(c) ==>
      var i := FirstWithKey(c.books, BookKey, id).value;
      r.catalog.books == c.books[..i] + c.books[i + 1..]
    ensures Valid(c) ==> Valid(r.catalog)
  {
    var kept := Without(c.books, BookKey, id);
    WithoutShrinks(c.books, BookKey, id);
    WithoutMembers(c.books, BookKey, id);
    RemovalKeepsValid(c, id);
    if |kept| == |c.books| then Reply(NotFound, c, None)
    else Reply(Ok, Catalog(kept, c.users), Some(RemoveBook(id)))
  }

  /** With unique ids, removing a present id drops exactly its one book and keeps ids unique. */
  lemma RemovalKeepsValid(c: Catalog, id: Int32)
    ensures Valid(c) ==> Unique(Without(c.books, BookKey, id), BookKey)
    ensures Valid(c) && FirstWithKey(c.books, BookKey, id).Some? ==>
      var i := FirstWithKey(c.books, BookKey, id).value;
      Without(c.books, BookKey, id) == c.books[..i] + c.books[i + 1..]
  {
    if Valid(c) {
      UniqueWithout(c.books, BookKey, id);
      if FirstWithKey(c.books, BookKey, id).Some? {
        WithoutUnique(c.books, BookKey, id, FirstWithKey(c.books, BookKey, id).value);
      }
    }
  }

  /**
   * POST /books/<bookId>/issue. The checks run in the order: body has a
   * `userId`, the book exists, the book is available, the user exists.
   */
  function IssueBook(c: Catalog, bookId: Int32, body: Option<Object>): (r: Reply)
    ensures r.status == BadInput <==> !Has(body, "userId")
    ensures r.status == ServerError <==> Has(body, "userId") && RequestedUser(body).None?
    ensures RequestedUser(body).Some? && FirstWithKey(c.books, BookKey, bookId).None? ==> r.status == NotFound
    ensures RequestedUser(body).Some? && FirstWithKey(c.books, BookKey, bookId).Some? ==>
      var i := FirstWithKey(c.books, BookKey, bookId).value;
      && (!c.books[i].isAvailable ==> r.status == Conflict)
      && (c.books[i].isAvailable && FirstWithKey(c.users, UserKey, RequestedUser(body).value).None? ==>
            r.status == NotFound)
    ensures r.status == Ok <==>
      && RequestedUser(body).Some?
      && FirstWithKey(c.books, BookKey, bookId).Some?
      && c.books[FirstWithKey(c.books, BookKey, bookId).value].isAvailable
      && FirstWithKey(c.users, UserKey, RequestedUser(body).value).Some?
    ensures r.status != Ok ==> r.catalog == c && r.write.None?
    ensures r.status == Ok ==>
      var i := FirstWithKey(c.books, BookKey, bookId).value;
      var issued := c.books[i].(isAvailable := false);
      r.catalog == Catalog(c.books[i := issued], c.users) && r.write == Some(SaveBook(issued))
    ensures Valid(c) ==> Valid(r.catalog)
  {
    if !Has(body, "userId") then Reply(BadInput, c, None)
    else
      match IntAt(body.value, "userId")
      case Failure(_) => Reply(ServerError, c, None)
      case Success(userId) =>
        match FirstWithKey(c.books, BookKey, bookId)
        case None => Reply(NotFound, c, None)
        case Some(i) =>
          if !c.books[i].isAvailable then Reply(Conflict, c, None)
          else if FirstWithKey(c.users, UserKey, userId).None? then Reply(NotFound, c, None)
          else
            var issued := c.books[i].(isAvailable := false);
            Reply(Ok, Catalog(c.books[i := issued], c.users), Some(SaveBook(issued)))
  }

  /** POST /books/<bookId>/return. */
  function ReturnBook(c: Catalog, bookId: Int32): (r: Reply)
    ensures r.status == Ok || r.status == NotFound || r.status == Conflict
    ensures r.status == NotFound <==> FirstWithKey(c.books, BookKey, bookId).None?
    ensures r.status == Conflict <==>
      FirstWithKey(c.books, BookKey, bookId).Some? && c.books[FirstWithKey(c.books, BookKey, bookId).value].isAvailable
    ensures r.status != Ok ==> r.catalog == c && r.write.None?
    ensures r.status == Ok ==>
      var i := FirstWithKey(c.books, BookKey, bookId).value;
      var returned := c.books[i].(isAvailable := true);
      r.catalog == Catalog(c.books[i := returned], c.users) && r.write == Some(SaveBook(returned))
    ensures Valid(c) ==> Valid(r.catalog)
  {
    match FirstWithKey(c.books, BookKey, bookId)
    case None => Reply(NotFound, c, None)
    case Some(i) =>
      if c.books[i].isAvailable then Reply(Conflict, c, None)
      else
        var returned := c.books[i].(isAvailable := true);
        Reply(Ok, Catalog(c.books[i := returned], c.users), Some(SaveBook(returned)))
  }

  /** POST /users. */
  function AddUser(c: Catalog, body: Option<Object>): (r: Reply)
    ensures r.status == BadInput <==> !(Has(body, "userId") && Has(body, "userName"))
    ensures r.status == Conflict <==>
      && Has(body, "userId") && Has(body, "userName")
      && IntAt(body.value, "userId").Success?
      && FirstWithKey(c.users, UserKey, IntAt(body.value, "userId").value).Some?
    ensures r.status == Ok <==>
      && Has(body, "userId") && Has(body, "userName")
      && UserFromJson(body.value).Success?
      && FirstWithKey(c.users, UserKey, UserFromJson(body.value).value.userId).None?
    ensures r.status != NotFound
    ensures r.status != Ok ==> r.catalog == c && r.write.None?
    ensures r.status == Ok ==>
      var u := UserFromJson(body.value).value;
      r.catalog == Catalog(c.books, c.users + [u]) && r.write == Some(SaveUser(u))
    ensures Valid(c) ==> Valid(r.catalog)
  {
    if !(Has(body, "userId") && Has(body, "userName")) then Reply(BadInput, c, None)
    else
      var j := body.value;
      match IntAt(j, "userId")
      case Failure(_) => Reply(ServerError, c, None)
      case Success(userId) =>
        if FirstWithKey(c.users, UserKey, userId).Some? then Reply(Conflict, c, None)
        else
          match UserFromJson(j)
          case Failure(_) => Reply(ServerError, c, None)
          case Success(u) =>
            Reply(Ok, Catalog(c.books, c.users + [u]), Some(SaveUser(u)))
  }

  /** A request to one of the mutating routes, already parsed. */
  datatype Request =
    | PostBook(body: Option<Object>)
    | DeleteBookById(id: Int32)
    | IssueBookTo(bookId: Int32, body: Option<Object>)
    | ReturnBookById(bookId: Int32)
    | PostUser(body: Option<Object>)

  /** Routing of a request to its handler. */
  function Handle(c: Catalog, req: Request): (r: Reply)
    ensures r.status == Ok <==> r.write.Some?
    ensures r.status != Ok ==> r.catalog == c
    ensures Valid(c) ==> Valid(r.catalog)
  {
    match req
    case PostBook(body) => AddBook(c, body)
    case DeleteBookById(id) => DeleteBook(c, id)
    case IssueBookTo(bookId, body) => IssueBook(c, bookId, body)
    case ReturnBookById(bookId) => ReturnBook(c, bookId)
    case PostUser(body) => AddUser(c, body)
  }

  /** The catalog in memory together with the database tables. */
  datatype Server = Server(catalog: Catalog, tables: Tables)

  /** A request, and whether the statement it writes through fails. */
  datatype Event = Event(req: Request, fault: bool)

  /**
   * Requests handled one after another, each as one indivisible step (the
   * mutating routes hold one lock throughout): the final state and the
   * status of each request, in order.
   */
  function Serve(s: Server, events: seq<Event>): (r: (Server, seq<Status>))
    ensures |r.1| == |events|
    decreases |events|
  {
    if events == [] then (s, [])
    else
      var reply := Handle(s.catalog, events[0].req);
      var next := Server(reply.catalog, WriteThrough(s.tables, reply.write, events[0].fault));
      var rest := Serve(next, events[1..]);
      (rest.0, [reply.status] + rest.1)
  }

  /** The tables hold exactly the rows of the in-memory catalog. */
  ghost predicate Mirrors(c: Catalog, t: Tables) {
    t.books == TableOf(c.books, BookKey) && t.users == TableOf(c.users, UserKey)
  }
}
