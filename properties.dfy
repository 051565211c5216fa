/**
 * Properties of the catalog routes that relate several requests, or the
 * catalog to the database: uniqueness over any run, the write-through keeping
 * the tables in step, what a swallowed database failure costs, and the
 * issue/return state machine.
 */
module Properties {
  import opened Wrappers
  import opened Json
  import opened Records
  import opened Keyed
  import opened Store
  import opened Handlers

  /** A request whose statement goes through leaves the tables mirroring the new catalog. */
  lemma HandleKeepsMirror(c: Catalog, t: Tables, req: Request)
    requires Valid(c) && Mirrors(c, t)
    ensures Mirrors(Handle(c, req).catalog, WriteThrough(t, Handle(c, req).write, false))
  {
    match req
    case PostBook(body) => AddBookKeepsMirror(c, t, body);
    case DeleteBookById(id) => DeleteBookKeepsMirror(c, t, id);
    case IssueBookTo(bookId, body) => IssueBookKeepsMirror(c, t, bookId, body);
    case ReturnBookById(bookId) => ReturnBookKeepsMirror(c, t, bookId);
    case PostUser(body) => AddUserKeepsMirror(c, t, body);
  }

  /** POST /books: the upsert of the appended book keeps the tables in step. */
  lemma AddBookKeepsMirror(c: Catalog, t: Tables, body: Option<Object>)
    requires Mirrors(c, t)
    ensures Mirrors(AddBook(c, body).catalog, WriteThrough(t, AddBook(c, body).write, false))
  {
    if AddBook(c, body).status == Ok {
      TableOfAppend(c.books, BookKey, BookFromJson(body.value).value);
    }
  }

  /** DELETE /books/<id>: deleting row `id` keeps the tables in step with the vector that lost every book with that id. */
  lemma DeleteBookKeepsMirror(c: Catalog, t: Tables, id: Int32)
    requires Mirrors(c, t)
    ensures Mirrors(DeleteBook(c, id).catalog, WriteThrough(t, DeleteBook(c, id).write, false))
  {
    if DeleteBook(c, id).status == Ok {
      TableOfWithout(c.books, BookKey, id);
    }
  }

  /** Issue: the upsert of the issued book keeps the tables in step. */
  lemma IssueBookKeepsMirror(c: Catalog, t: Tables, bookId: Int32, body: Option<Object>)
    requires Valid(c) && Mirrors(c, t)
    ensures Mirrors(IssueBook(c, bookId, body).catalog, WriteThrough(t, IssueBook(c, bookId, body).write, false))
  {
    if IssueBook(c, bookId, body).status == Ok {
      var i := FirstWithKey(c.books, BookKey, bookId).value;
      TableOfUpdate(c.books, BookKey, i, c.books[i].(isAvailable := false));
    }
  }

  /** Return: the upsert of the returned book keeps the tables in step. */
  lemma ReturnBookKeepsMirror(c: Catalog, t: Tables, bookId: Int32)
    requires Valid(c) && Mirrors(c, t)
    ensures Mirrors(ReturnBook(c, bookId).catalog, WriteThrough(t, ReturnBook(c, bookId).write, false))
  {
    if ReturnBook(c, bookId).status == Ok {
      var i := FirstWithKey(c.books, BookKey, bookId).value;
      TableOfUpdate(c.books, BookKey, i, c.books[i].(isAvailable := true));
    }
  }

  /** POST /users: the upsert of the appended user keeps the tables in step. */
  lemma AddUserKeepsMirror(c: Catalog, t: Tables, body: Option<Object>)
    requires Mirrors(c, t)
    ensures Mirrors(AddUser(c, body).catalog, WriteThrough(t, AddUser(c, body).write, false))
  {
    if AddUser(c, body).status == Ok {
      TableOfAppend(c.users, UserKey, UserFromJson(body.value).value);
    }
  }

  /**
   * When the statement of an accepted request fails, the caller still gets
   * the success answer and the new catalog, but the tables keep the old
   * catalog's rows: they no longer mirror memory, and a restart would reload
   * the state from before the request.
   */
  lemma FailedWriteLosesChange(c: Catalog, t: Tables, req: Request)
    requires Valid(c) && Mirrors(c, t) && Handle(c, req).status == Ok
    ensures !Mirrors(Handle(c, req).catalog, WriteThrough(t, Handle(c, req).write, true))
  {
    match req
    case PostBook(body) => AddedBookNotStored(c, t, body);
    case DeleteBookById(id) => DeletedBookStillStored(c, t, id);
    case IssueBookTo(bookId, body) => AvailabilityNotStored(c, t, IssueBook(c, bookId, body), bookId);
    case ReturnBookById(bookId) => AvailabilityNotStored(c, t, ReturnBook(c, bookId), bookId);
    case PostUser(body) => AddedUserNotStored(c, t, body);
  }

  /** A book added in memory whose upsert failed has no row. */
  lemma AddedBookNotStored(c: Catalog, t: Tables, body: Option<Object>)
    requires Mirrors(c, t) && AddBook(c, body).status == Ok
    ensures BookFromJson(body.value).value.id !in t.books
    ensures !Mirrors(AddBook(c, body).catalog, t)
  {
    var b := BookFromJson(body.value).value;
    TableOfKeys(c.books, BookKey);
    assert AddBook(c, body).catalog.books[|c.books|] == b;
    assert b.id !in t.books;
  }

  /** A book deleted in memory whose row deletion failed still has its row. */
  lemma DeletedBookStillStored(c: Catalog, t: Tables, id: Int32)
    requires Mirrors(c, t) && DeleteBook(c, id).status == Ok
    ensures id in t.books
    ensures !Mirrors(DeleteBook(c, id).catalog, t)
  {
    var i := FirstWithKey(c.books, BookKey, id).value;
    assert id in t.books by { assert BookKey(c.books[i]) == id; }
    TableOfWithout(c.books, BookKey, id);
  }

  /** A user added in memory whose upsert failed has no row. */
  lemma AddedUserNotStored(c: Catalog, t: Tables, body: Option<Object>)
    requires Mirrors(c, t) && AddUser(c, body).status == Ok
    ensures UserFromJson(body.value).value.userId !in t.users
    ensures !Mirrors(AddUser(c, body).catalog, t)
  {
    var u := UserFromJson(body.value).value;
    TableOfKeys(c.users, UserKey);
    assert AddUser(c, body).catalog.users[|c.users|] == u;
    assert u.userId !in t.users;
  }

  /** An accepted issue or return flips the availability of book `bookId` in memory only. */
  lemma AvailabilityNotStored(c: Catalog, t: Tables, r: Reply, bookId: Int32)
    requires Valid(c) && Valid(r.catalog) && Mirrors(c, t)
    requires FirstWithKey(c.books, BookKey, bookId).Some?
    requires
      var i := FirstWithKey(c.books, BookKey, bookId).value;
      r.catalog == Catalog(c.books[i := c.books[i].(isAvailable := !c.books[i].isAvailable)], c.users)
    ensures bookId in t.books
    ensures t.books[bookId].isAvailable != r.catalog.books[FirstWithKey(c.books, BookKey, bookId).value].isAvailable
    ensures !Mirrors(r.catalog, t)
  {
    var i := FirstWithKey(c.books, BookKey, bookId).value;
    TableOfUnique(c.books, BookKey);
    TableOfUnique(r.catalog.books, BookKey);
    assert BookKey(c.books[i]) == bookId && BookKey(r.catalog.books[i]) == bookId;
    assert t.books[bookId].isAvailable != TableOf(r.catalog.books, BookKey)[bookId].isAvailable;
  }

  /** Over any run of requests, with or without database failures, ids stay unique. */
  lemma {:induction false} ServeKeepsValid(s: Server, events: seq<Event>)
    requires Valid(s.catalog)
    ensures Valid(Serve(s, events).0.catalog)
    decreases |events|
  {
    if events != [] {
      var reply := Handle(s.catalog, events[0].req);
      ServeKeepsValid(Server(reply.catalog, WriteThrough(s.tables, reply.write, events[0].fault)), events[1..]);
    }
  }

  /** Over a run in which no statement fails, the tables keep mirroring the catalog. */
  lemma {:induction false} ServeKeepsMirror(s: Server, events: seq<Event>)
    requires Valid(s.catalog) && Mirrors(s.catalog, s.tables)
    requires forall i :: 0 <= i < |events| ==> !events[i].fault
    ensures Mirrors(Serve(s, events).0.catalog, Serve(s, events).0.tables)
    decreases |events|
  {
    if events != [] {
      var reply := Handle(s.catalog, events[0].req);
      HandleKeepsMirror(s.catalog, s.tables, events[0].req);
      ServeKeepsMirror(Server(reply.catalog, WriteThrough(s.tables, reply.write, false)), events[1..]);
    }
  }

  /** Issuing a book a second time is refused with 409 and changes nothing. */
  lemma IssueTwiceConflicts(c: Catalog, bookId: Int32, body: Option<Object>, again: Option<Object>)
    requires IssueBook(c, bookId, body).status == Ok
    requires RequestedUser(again).Some?
    ensures IssueBook(IssueBook(c, bookId, body).catalog, bookId, again)
         == Reply(Conflict, IssueBook(c, bookId, body).catalog, None)
  {
    var i := FirstWithKey(c.books, BookKey, bookId).value;
    FirstWithKeyUpdate(c.books, BookKey, i, c.books[i].(isAvailable := false), bookId);
  }

  /** Returning a book just issued restores the catalog exactly and writes the original row back. */
  lemma IssueThenReturnRestores(c: Catalog, bookId: Int32, body: Option<Object>)
    requires IssueBook(c, bookId, body).status == Ok
    ensures ReturnBook(IssueBook(c, bookId, body).catalog, bookId)
         == Reply(Ok, c, Some(SaveBook(c.books[FirstWithKey(c.books, BookKey, bookId).value])))
  {
    var i := FirstWithKey(c.books, BookKey, bookId).value;
    var issued := c.books[i].(isAvailable := false);
    FirstWithKeyUpdate(c.books, BookKey, i, issued, bookId);
    assert c.books[i := issued][i := issued.(isAvailable := true)] == c.books;
  }

  /** Issuing, to a known user, a book just returned restores the catalog exactly. */
  lemma ReturnThenIssueRestores(c: Catalog, bookId: Int32, body: Option<Object>)
    requires ReturnBook(c, bookId).status == Ok
    requires RequestedUser(body).Some? && FirstWithKey(c.users, UserKey, RequestedUser(body).value).Some?
    ensures IssueBook(ReturnBook(c, bookId).catalog, bookId, body)
         == Reply(Ok, c, Some(SaveBook(c.books[FirstWithKey(c.books, BookKey, bookId).value])))
  {
    var i := FirstWithKey(c.books, BookKey, bookId).value;
    var returned := c.books[i].(isAvailable := true);
    FirstWithKeyUpdate(c.books, BookKey, i, returned, bookId);
    assert c.books[i := returned][i := returned.(isAvailable := false)] == c.books;
  }

  /** Adding a book whose id was just added is refused with 409 and changes nothing. */
  lemma AddBookTwiceConflicts(c: Catalog, body: Option<Object>, again: Option<Object>)
    requires AddBook(c, body).status == Ok
    requires Has(again, "id") && Has(again, "title") && Has(again, "author")
    requires IntAt(again.value, "id") == Success(BookFromJson(body.value).value.id)
    ensures AddBook(AddBook(c, body).catalog, again) == Reply(Conflict, AddBook(c, body).catalog, None)
  {
    var b := BookFromJson(body.value).value;
    assert (c.books + [b])[|c.books|] == b;
  }

  /** Adding a user whose userId was just added is refused with 409 and changes nothing. */
  lemma AddUserTwiceConflicts(c: Catalog, body: Option<Object>, again: Option<Object>)
    requires AddUser(c, body).status == Ok
    requires Has(again, "userId") && Has(again, "userName")
    requires IntAt(again.value, "userId") == Success(UserFromJson(body.value).value.userId)
    ensures AddUser(AddUser(c, body).catalog, again) == Reply(Conflict, AddUser(c, body).catalog, None)
  {
    var u := UserFromJson(body.value).value;
    assert (c.users + [u])[|c.users|] == u;
  }

  /** Deleting a book just added restores the catalog exactly. */
  lemma AddThenDeleteRestores(c: Catalog, body: Option<Object>)
    requires AddBook(c, body).status == Ok
    ensures DeleteBook(AddBook(c, body).catalog, BookFromJson(body.value).value.id)
         == Reply(Ok, c, Some(RemoveBook(BookFromJson(body.value).value.id)))
  {
    var b := BookFromJson(body.value).value;
    var s := c.books + [b];
    WithoutAbsent(c.books, BookKey, b.id);
    assert s[..|s| - 1] == c.books;
    WithoutShrinks(s, BookKey, b.id);
    assert s[|s| - 1] == b;
  }

  /** The number of requests answered with success. */
  function CountOk(statuses: seq<Status>): nat {
    if statuses == [] then 0 else (if statuses[0] == Ok then 1 else 0) + CountOk(statuses[1..])
  }

  /** Every request of the run asks to issue book `bookId`. */
  ghost predicate AllIssue(events: seq<Event>, bookId: Int32) {
    forall i :: 0 <= i < |events| ==> events[i].req.IssueBookTo? && events[i].req.bookId == bookId
  }

  /** A book that is out stays out under any run of issue requests for it, each of which fails. */
  lemma {:induction false} IssuedStaysIssued(s: Server, bookId: Int32, events: seq<Event>)
    requires AllIssue(events, bookId)
    requires FirstWithKey(s.catalog.books, BookKey, bookId).Some?
    requires !s.catalog.books[FirstWithKey(s.catalog.books, BookKey, bookId).value].isAvailable
    ensures Serve(s, events).0.catalog == s.catalog
    ensures CountOk(Serve(s, events).1) == 0
    ensures forall k :: 0 <= k < |events| && RequestedUser(events[k].req.body).Some? ==>
      Serve(s, events).1[k] == Conflict
    decreases |events|
  {
    if events != [] {
      var reply := Handle(s.catalog, events[0].req);
      var next := Server(reply.catalog, WriteThrough(s.tables, reply.write, events[0].fault));
      assert AllIssue(events[1..], bookId);
      IssuedStaysIssued(next, bookId, events[1..]);
      var sts := Serve(s, events).1;
      assert sts == [reply.status] + Serve(next, events[1..]).1;
      forall k | 0 <= k < |events| && RequestedUser(events[k].req.body).Some? ensures sts[k] == Conflict {
        if k > 0 {
          assert events[1..][k - 1] == events[k];
        }
      }
    }
  }

  /** Of any run of issue requests for one book, at most one succeeds. */
  lemma {:induction false} AtMostOneIssueSucceeds(s: Server, bookId: Int32, events: seq<Event>)
    requires AllIssue(events, bookId)
    ensures CountOk(Serve(s, events).1) <= 1
    decreases |events|
  {
    if events != [] {
      var c := s.catalog;
      var reply := Handle(c, events[0].req);
      var next := Server(reply.catalog, WriteThrough(s.tables, reply.write, events[0].fault));
      assert AllIssue(events[1..], bookId);
      assert Serve(s, events).1 == [reply.status] + Serve(next, events[1..]).1;
      if reply.status == Ok {
        var i := FirstWithKey(c.books, BookKey, bookId).value;
        FirstWithKeyUpdate(c.books, BookKey, i, c.books[i].(isAvailable := false), bookId);
        IssuedStaysIssued(next, bookId, events[1..]);
      } else {
        AtMostOneIssueSucceeds(next, bookId, events[1..]);
      }
    }
  }

  /**
   * Requests racing to issue one available book to a known user, served one
   * at a time: the first succeeds and every later one gets 409.
   */
  lemma IssueRaceOneWinner(s: Server, bookId: Int32, events: seq<Event>)
    requires |events| > 0 && AllIssue(events, bookId)
    requires forall k :: 0 <= k < |events| ==> RequestedUser(events[k].req.body).Some?
    requires FirstWithKey(s.catalog.books, BookKey, bookId).Some?
    requires s.catalog.books[FirstWithKey(s.catalog.books, BookKey, bookId).value].isAvailable
    requires FirstWithKey(s.catalog.users, UserKey, RequestedUser(events[0].req.body).value).Some?
    ensures Serve(s, events).1[0] == Ok
    ensures forall k :: 1 <= k < |events| ==> Serve(s, events).1[k] == Conflict
  {
    var c := s.catalog;
    var reply := Handle(c, events[0].req);
    var next := Server(reply.catalog, WriteThrough(s.tables, reply.write, events[0].fault));
    assert AllIssue(events[1..], bookId);
    assert Serve(s, events).1 == [reply.status] + Serve(next, events[1..]).1;
    var i := FirstWithKey(c.books, BookKey, bookId).value;
    FirstWithKeyUpdate(c.books, BookKey, i, c.books[i].(isAvailable := false), bookId);
    IssuedStaysIssued(next, bookId, events[1..]);
    forall k | 1 <= k < |events| ensures Serve(s, events).1[k] == Conflict {
      assert events[1..][k - 1] == events[k];
    }
  }
}
