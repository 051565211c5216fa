# Library catalog: a Dafny model

The backend of this library system keeps its catalog in two in-memory
vectors, `libraryBooks` and `libraryUsers`. Books and users are looked up by a
linear scan for the first entry with a given id. Each mutating HTTP route
changes the vectors under one mutex and is meant to write the change
through to a MySQL database with an upsert or a delete, swallowing a failed
database write so that the route still answers success. As written, the
database helpers lock that mutex a second time, so no accepted request gets
as far as its statement or its answer (see Findings). The `Handlers` and
`Service` modules model the intended behaviour; `Locking` models both.

This project models that core:

- `json.dfy` (module `Json`): parsed JSON values and the accessors the
  records use (`at`, `value`, `get<int>`, `get<std::string>`, `get<bool>`).
  A thrown exception becomes a `Failure`.
- `records.dfy` (module `Records`): `Book` and `User` with their `to_json` and
  `from_json` mappings, and the round trips between them.
- `keyed.dfy` (module `Keyed`): sequences of keyed records. It defines the
  first-match lookup, uniqueness of keys, what `remove_if` plus `erase` leaves,
  and the table a keyed store holds for such a sequence.
- `store.dfy` (module `Store`): the two database tables as maps. It covers the
  four statements the backend sends, and the best-effort write-through, whose
  `fault` flag stands for a database exception.
- `handlers.dfy` (module `Handlers`): each mutating route as a pure function
  from the catalog and the parsed request to a `Reply`. A reply holds the
  status (200/400/404/409/500), the new catalog and the statement written
  through. `Serve` runs requests one after another, each as one indivisible
  step.
- `library.dfy` (module `Service`): the class `Library`. Its fields are the two
  vectors and the tables. It has a method per route and per database helper,
  and the lookups and `remove_if` are loops. Each mutating method is proved to
  do exactly what the matching `Handlers` function says.
- `properties.dfy` (module `Properties`): lemmas over several requests, and
  lemmas relating the catalog to the database.
- `locking.dfy` (module `Locking`): the lock discipline of the routes. See
  Findings.

Request bodies are `Option<Object>`. `None` stands for a body that is not a
JSON object: either it failed to parse, or it is another kind of value. For
such a body `contains` is false for every name, so the route answers 400.
When a member is present but has the wrong type, the JSON library throws and
the HTTP framework answers 500. The model calls this `ServerError`. The
`get<int>` accessor also accepts a boolean (giving 0 or 1), and it reduces a
larger integer modulo 2^32 into the 32-bit range.

The issue route checks, in this order, that the book exists, that it is
available, and that the user exists (backend/src/main.cpp:252-256). So issuing
a book that is already out to an unknown user answers 409, not 404. The
helper `deleteUserFromDB` (backend/src/main.cpp:164-172) exists, but no route
calls it: the model has the helper and no user-deletion route.

## Model

| member | source | states |
|---|---|---|
| Json.ToInt32 | backend/src/main.cpp:32 | conversion to the 32-bit `int` of an id: the identity on in-range values, otherwise congruent modulo 2^32 |
| Json.IntAt | backend/src/main.cpp:32 | `at(name).get<int>()`: throws the missing-member error when the member is absent and the type error unless it is an integer or a boolean; an integer is narrowed modulo 2^32, a boolean gives 0 or 1 |
| Json.StringAt | backend/src/main.cpp:33-34 | `at(name).get<std::string>()`: throws the missing-member error when absent and the type error unless it is a string; otherwise gives that string |
| Json.BoolOr | backend/src/main.cpp:35 | `value(name, default)` for a boolean: the default when the member is absent, the boolean when it is one, and the type error otherwise |
| Records.BookFromJson | backend/src/main.cpp:30-37 | decoding succeeds exactly when `id` converts to int, `title` and `author` are strings and `isAvailable` is absent or boolean; the fields are those members, `isAvailable` defaulting to true |
| Records.UserFromJson | backend/src/main.cpp:48-53 | decoding succeeds exactly when `userId` converts to int and `userName` is a string; the fields are those members |
| Records.BookToJson | backend/src/main.cpp:26-28 | `Book::to_json`: exactly the members `id`, `title`, `author`, `isAvailable`, each reading back as the book's field |
| Records.UserToJson | backend/src/main.cpp:44-46 | `User::to_json`: exactly the members `userId`, `userName`, each reading back as the user's field |
| Records.BookRoundTrip | backend/src/main.cpp:26-37 | `from_json(to_json(b))` gives back `b` field for field |
| Records.UserRoundTrip | backend/src/main.cpp:44-53 | `from_json(to_json(u))` gives back `u` |
| Records.AvailableByDefault | backend/src/main.cpp:35 | a payload without `isAvailable` decodes to an available book |
| Keyed.FirstWithKey | backend/src/main.cpp:178-186 | the result is the index of the first entry with the key, in vector order, and absent exactly when no entry has the key |
| Keyed.Without | backend/src/main.cpp:238-240 | `remove_if` plus `erase`: never longer than the vector (the rest in the lemmas below) |
| Keyed.WithoutMembers | backend/src/main.cpp:238-240 | after `remove_if` and `erase`, no entry has the id, and every entry with another id is kept |
| Keyed.WithoutShrinks | backend/src/main.cpp:238-239 | `remove_if` returns `end()` (nothing to erase) exactly when no entry has the id |
| Keyed.WithoutAppend | backend/src/main.cpp:238-240 | removal from a concatenation is the concatenation of the removals: the kept entries keep their relative order and multiplicity, however many entries have the id |
| Keyed.WithoutOne | backend/src/main.cpp:238 | a single entry is kept exactly when its id is not the one removed |
| Keyed.WithoutAbsent | backend/src/main.cpp:238-240 | removing an id no entry has leaves the vector as it was |
| Keyed.WithoutSingle | backend/src/main.cpp:238-240 | when only entry `i` has the id, removal drops exactly entry `i` and keeps the rest in order |
| Keyed.WithoutUnique | backend/src/main.cpp:238-240 | with unique ids, removal drops exactly the first (only) match and keeps the rest in order |
| Keyed.UniqueWithout | backend/src/main.cpp:238-240 | removal keeps ids unique |
| Keyed.FirstWithKeyUpdate | backend/src/main.cpp:257 | writing a field other than the id through the found pointer moves no later lookup |
| Keyed.TableOfKeys | backend/src/main.cpp:90-102 | every row of the table built from a vector belongs to some entry of it |
| Keyed.TableOf | backend/src/main.cpp:90-102 | the table a run of upserts of the entries leaves (a later entry wins): every entry's key has a row |
| Keyed.TableOfUnique | backend/src/main.cpp:90-102 | with unique ids, the table maps each entry's id to that entry |
| Keyed.TableOfAppend | backend/src/main.cpp:129 | appending an entry and upserting it give the same table |
| Keyed.TableOfUpdate | backend/src/main.cpp:129 | with unique ids, changing an entry in place and upserting it give the same table |
| Keyed.TableOfWithout | backend/src/main.cpp:157 | removing every entry with an id and deleting that row give the same table |
| Store.Apply | backend/src/main.cpp:126-172 | an upsert leaves one row for the key, equal to the record, and the other rows as they were; a delete removes exactly that key; the other table is untouched |
| Store.WriteThrough | backend/src/main.cpp:128-171 | the `try`/`catch` around each statement: a failed statement is swallowed and leaves the tables as they were, as does a request that sends no statement; otherwise the statement takes effect |
| Handlers.Has | backend/src/main.cpp:217 | `contains(name)`: when true, `at(name)` does not throw; when false on an object, `at(name)` throws the missing-member error |
| Handlers.RequestedUser | backend/src/main.cpp:248-250 | the issue request's `userId`: present exactly when the body is an object whose `userId` member is an integer or a boolean; then the integer narrowed modulo 2^32, or 0/1 for a boolean |
| Handlers.AddBook | backend/src/main.cpp:215-226 | 400 exactly when `id`, `title` or `author` is missing; 409 exactly when the id exists; 200 exactly when the body decodes and the id is new, and then the book is appended and upserted; the catalog is unchanged on any failure; ids stay unique |
| Handlers.DeleteBook | backend/src/main.cpp:236-243 | 404 exactly when no book has the id, with nothing changed; otherwise the books are exactly `Keyed.Without` of the old ones (every book with the id removed, the others kept in order), users are untouched, and the row is deleted; with unique ids exactly the one book goes, in place |
| Handlers.RemovalKeepsValid | backend/src/main.cpp:238-240 | with unique ids, deletion keeps ids unique and removes exactly the one matching book |
| Handlers.IssueBook | backend/src/main.cpp:246-260 | 400 without `userId`; then in order: book absent gives 404, book out gives 409 whatever the user, user absent gives 404; 200 exactly when the book exists and is available and the user exists; success clears only that book's `isAvailable` and upserts it; failures change nothing |
| Handlers.ReturnBook | backend/src/main.cpp:263-271 | 404 exactly when the book is absent; 409 exactly when it is available; success sets only that book's `isAvailable` and upserts it; failures change nothing |
| Handlers.AddUser | backend/src/main.cpp:282-293 | 400 exactly when `userId` or `userName` is missing; 409 exactly when the userId exists; on 200 the user is appended and upserted and books are untouched; failures change nothing; userIds stay unique |
| Handlers.Handle | backend/src/main.cpp:215-293 | a route writes through exactly when it answers 200; a failing route leaves the catalog unchanged; every route keeps ids unique |
| Handlers.Serve | backend/src/main.cpp:60 | requests handled one at a time under the one mutex yield one status per request, in order |
| Properties.HandleKeepsMirror | backend/src/main.cpp:126-161 | when the statement succeeds, a tables-mirror-catalog state stays mirrored after any route |
| Properties.AddBookKeepsMirror | backend/src/main.cpp:223-224 | adding a book and upserting it keep the tables in step |
| Properties.DeleteBookKeepsMirror | backend/src/main.cpp:240-241 | removing the books and deleting the row keep the tables in step |
| Properties.IssueBookKeepsMirror | backend/src/main.cpp:257-258 | issuing and upserting keep the tables in step |
| Properties.ReturnBookKeepsMirror | backend/src/main.cpp:268-269 | returning and upserting keep the tables in step |
| Properties.AddUserKeepsMirror | backend/src/main.cpp:290-291 | adding a user and upserting it keep the tables in step |
| Properties.FailedWriteLosesChange | backend/src/main.cpp:139-161 | when the statement of an accepted request fails, the tables (left as they were, see `Store.WriteThrough`) no longer match memory, so a restart would reload the state from before the request |
| Properties.AddedBookNotStored | backend/src/main.cpp:223-224 | a book added in memory whose upsert failed has no row, so the tables no longer mirror memory |
| Properties.DeletedBookStillStored | backend/src/main.cpp:240-241 | a book deleted in memory whose row deletion failed keeps its row, so the tables no longer mirror memory |
| Properties.AddedUserNotStored | backend/src/main.cpp:290-291 | a user added in memory whose upsert failed has no row, so the tables no longer mirror memory |
| Properties.AvailabilityNotStored | backend/src/main.cpp:257-269 | an issue or return whose upsert failed leaves the book's row with the availability opposite to memory, so the tables no longer mirror memory |
| Properties.ServeKeepsValid | backend/src/main.cpp:215-293 | over any run of requests, with or without database failures, book ids and user ids stay unique |
| Properties.ServeKeepsMirror | backend/src/main.cpp:126-161 | over any run in which no statement fails, the tables keep mirroring the catalog |
| Properties.IssueTwiceConflicts | backend/src/main.cpp:252-254 | a second issue of the same book gives 409 and changes nothing |
| Properties.IssueThenReturnRestores | backend/src/main.cpp:257-268 | issue followed by return restores the catalog exactly and writes the original row back |
| Properties.ReturnThenIssueRestores | backend/src/main.cpp:257-268 | return followed by issue to a known user restores the catalog exactly |
| Properties.AddBookTwiceConflicts | backend/src/main.cpp:219-221 | adding a book whose id was just added gives 409 and changes nothing |
| Properties.AddUserTwiceConflicts | backend/src/main.cpp:286-288 | adding a user whose userId was just added gives 409 and changes nothing |
| Properties.AddThenDeleteRestores | backend/src/main.cpp:215-243 | deleting a book just added restores the catalog exactly |
| Properties.IssuedStaysIssued | backend/src/main.cpp:252-254 | any run of issue requests for a book that is out succeeds nowhere, changes nothing, and answers 409 to every request with a usable userId |
| Properties.AtMostOneIssueSucceeds | backend/src/main.cpp:251-259 | of any run of issue requests for one book, at most one answers 200 |
| Properties.IssueRaceOneWinner | backend/src/main.cpp:251-259 | serialized issue requests for an available book from known users: the first answers 200, every later one 409 |
| Service.Library.constructor | backend/src/main.cpp:78-124 | the vectors start as the rows the table scans returned, in scan order; since the scans return each row of a table keyed by `id`/`userId` once, ids start unique and the tables start mirroring the vectors |
| Service.Library.FindBookById | backend/src/main.cpp:178-181 | the loop returns the index of the first book with the id, or none |
| Service.Library.FindUserById | backend/src/main.cpp:183-186 | the loop returns the index of the first user with the userId, or none |
| Service.Library.SaveBookToDb | backend/src/main.cpp:126-140 | the book's row is upserted unless the statement fails, and then nothing changes |
| Service.Library.SaveUserToDb | backend/src/main.cpp:142-152 | the user's row is upserted unless the statement fails, and then nothing changes |
| Service.Library.DeleteBookFromDb | backend/src/main.cpp:154-162 | the row with the id is deleted unless the statement fails |
| Service.Library.DeleteUserFromDb | backend/src/main.cpp:164-172 | the row with the userId is deleted unless the statement fails |
| Service.Library.ListBooks | backend/src/main.cpp:207-212 | one JSON object per book, in vector order, each decoding back to its book |
| Service.Library.ListUsers | backend/src/main.cpp:274-279 | one JSON object per user, in vector order, each decoding back to its user |
| Service.Library.GetBook | backend/src/main.cpp:229-233 | 404 exactly when no book has the id; otherwise the body is exactly the first matching book's `to_json`, which decodes back to that book |
| Service.Library.AddBook | backend/src/main.cpp:215-226 | status, new vectors and new tables are those of `Handlers.AddBook`, with the upsert applied unless it fails; ids stay unique; unless the statement fails, tables that mirrored the vectors still mirror them |
| Service.Library.RemoveIf | backend/src/main.cpp:238-240 | the compaction loop keeps exactly `Keyed.Without` of the books: those without the id, in order |
| Service.Library.DeleteBook | backend/src/main.cpp:236-243 | `remove_if`, the emptiness test and `erase` give exactly `Handlers.DeleteBook`'s status and vectors, with the row deletion applied unless it fails; ids stay unique; unless the statement fails, tables that mirrored the vectors still mirror them |
| Service.Library.IssueBook | backend/src/main.cpp:246-260 | status, vectors and tables are those of `Handlers.IssueBook`, with the upsert applied unless it fails; ids stay unique; unless the statement fails, tables that mirrored the vectors still mirror them |
| Service.Library.ReturnBook | backend/src/main.cpp:263-271 | status, vectors and tables are those of `Handlers.ReturnBook`, with the upsert applied unless it fails; ids stay unique; unless the statement fails, tables that mirrored the vectors still mirror them |
| Service.Library.AddUser | backend/src/main.cpp:282-293 | status, vectors and tables are those of `Handlers.AddUser`, with the upsert applied unless it fails; ids stay unique; unless the statement fails, tables that mirrored the vectors still mirror them |
| Locking.LockPrecedesWrite | backend/src/main.cpp:217-220 | a route that answers before its `lock_guard` answers 400 or 500, and no statement is sent without the lock |
| Locking.RouteActions | backend/src/main.cpp:220-264 | a route's mutex actions: none exactly when it answers before its `lock_guard`; otherwise bracketed by the lock and its release, with exactly the helper's actions between them for an accepted request and nothing between them for one that writes nothing |
| Locking.AsWrittenAcceptedRequestHangs | backend/src/main.cpp:126-127 | as written, from a free mutex, a mutating route returns exactly when it rejects the request, leaving the mutex free; an accepted one blocks for good in the helper's second lock while holding the mutex |
| Locking.HeldMutexBlocksRoutes | backend/src/main.cpp:220-264 | while the mutex is held for good, every mutating route that gets to its lock blocks, whatever it would have answered |
| Locking.ServeAsWritten | backend/src/main.cpp:215-293 | as written, a run of mutating requests gives one answer or hang per request |
| Locking.AsWrittenStaysBlocked | backend/src/main.cpp:215-293 | once the mutex is held for good, the vectors never change, every request that gets to its lock hangs, and the others answer 400 or 500 |
| Locking.ServeAsWrittenFirst | backend/src/main.cpp:215-293 | one step of the as-written run: the first request's answer or hang, then the rest from the catalog and mutex state it leaves |
| Locking.AsWrittenFirstAcceptBlocksAll | backend/src/main.cpp:215-293 | as written, the first accepted request never answers but its change stays in the vectors, and every later request is served with the mutex held for good (so, by `AsWrittenStaysBlocked`, it hangs when it gets to its lock, including ones that would answer 404 or 409) |
| Locking.EveryRouteCompletes | backend/src/main.cpp:220-225 | with the helpers running under the route's lock, every mutating route returns from a free mutex and leaves it free |

## Left out

- The MySQL connection, table creation and the start-up loads (`initDatabase`, `loadBooksFromDB`, `loadUsersFromDB`) are foreign-library I/O. The constructor takes the scanned rows and the tables as parameters, and requires of them what a full scan of tables keyed by `id` and `userId` gives: unique ids, and rows that are exactly the tables' contents.
- Service.Library.constructor: a load that throws part-way leaves only the rows read so far (or none) in the vector, so the tables do not start mirroring it; that start is not modelled.
- Column limits of the tables (`VARCHAR(255)`) and every other reason a statement can fail are folded into the `fault` flag of each write.
- Crow routing, CORS, HTTP framing and the text-to-JSON parser are left out. Requests arrive as parsed objects, route parameters arrive as 32-bit ints, and responses are a `Status` plus, for reads, JSON objects. The `message` strings are not modelled.
- Floating-point JSON numbers are not modelled: `get<int>` would truncate them. The parser stores an integer literal outside the signed and unsigned 64-bit ranges as a float, and `get<int>` of such a float is undefined; the model has no such bound on `JInt` and reduces every integer modulo 2^32. Duplicate member names within one object are not modelled either.
- The admin login (`checkAdminPassword` and its route) is left out. It is a string comparison with no state.
- Threads are left out. `Handlers.Serve` runs each mutating route as one indivisible step, as `data_mutex` intends; `Locking` models the mutex's lock discipline, one request at a time. The GET routes read the vectors without the lock, so they can race with a writer; that race is not modelled.
- The fixed pool of worker threads behind `.multithreaded()` (backend/src/main.cpp:295) is not modelled. As written, each hung request keeps its worker for good, so once every worker is hung nothing answers at all, not even the GET routes or the 400 and 500 answers given before the lock.
- The frontend tab switching (frontend/script.js) is user-interface code only.
- Handlers.Serve: its contract only fixes the number of statuses; its meaning is carried by the lemmas of `Properties` that use it.
- Keyed.Without: its own contract only bounds the length. Membership, order and multiplicity, and the emptiness test are stated by separate lemmas (`WithoutMembers`, `WithoutAppend` with `WithoutOne`, `WithoutShrinks`).
- Locking.ServeAsWritten: its own contract only fixes the number of answers; what they are is stated by `AsWrittenStaysBlocked` and `AsWrittenFirstAcceptBlocksAll`.

## Findings

| source | as written | input that shows it | evidently intended | confidence | as-written member | corrected member |
|---|---|---|---|---|---|---|
| backend/src/main.cpp:127 | `saveBookToDB`, `saveUserToDB` and `deleteBookFromDB` each take a `lock_guard` on `data_mutex` (lines 127, 143, 155). The calling route already holds that non-recursive mutex (lines 220, 237, 251, 264, 287). | any accepted change, e.g. POST /books with body `{"id":1,"title":"X","author":"Y"}` on an empty catalog. The request never answers, but the book stays in the vector, and the unlocked GET routes show it although it never reaches the database. The mutex stays held, so every later mutating request that gets to its lock hangs too, including ones that would answer 404 or 409; only the 400 and 500 answers given before the lock, and the unlocked GET routes, still come back, and only while a worker thread is free | the database helpers run under the route's lock without locking again, so the route answers 200 | high; not executed | Locking.AsWrittenAcceptedRequestHangs | Locking.EveryRouteCompletes |

The `Service.Library` methods and the `Handlers` functions model the corrected
behaviour: the database write runs inside the route's single critical
section and returns.
