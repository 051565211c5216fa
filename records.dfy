/** The two entities of the catalog and their mapping to and from JSON objects. */
module Records {
  import opened Wrappers
  import opened Json

  /** A book; `isAvailable` is false exactly while the book is issued. */
  datatype Book = Book(id: Int32, title: string, author: string, isAvailable: bool)

  /** A registered borrower. */
  datatype User = User(userId: Int32, userName: string)

  /** The key books are looked up and stored by. */
  function BookKey(b: Book): Int32 { b.id }

  /** The key users are looked up and stored by. */
  function UserKey(u: User): Int32 { u.userId }

  /** `Book::to_json`. */
  function BookToJson(b: Book): (r: Object)
    ensures r.Keys == {"id", "title", "author", "isAvailable"}
    ensures IntAt(r, "id") == Success(b.id)
    ensures StringAt(r, "title") == Success(b.title) && StringAt(r, "author") == Success(b.author)
    ensures BoolOr(r, "isAvailable", true) == Success(b.isAvailable)
  {
    map["id" := JInt(b.id as int), "title" := JString(b.title),
        "author" := JString(b.author), "isAvailable" := JBool(b.isAvailable)]
  }

  /**
   * `Book::from_json`: `id`, `title` and `author` must be present and of the
   * right type; `isAvailable` defaults to true when absent.
   */
  function BookFromJson(j: Object): (r: Result<Book, Error>)
    ensures r.Success? <==>
      && IntAt(j, "id").Success? && StringAt(j, "title").Success? && StringAt(j, "author").Success?
      && ("isAvailable" in j ==> j["isAvailable"].JBool?)
    ensures r.Success? ==>
      && IntAt(j, "id") == Success(r.value.id)
      && StringAt(j, "title") == Success(r.value.title)
      && StringAt(j, "author") == Success(r.value.author)
      && r.value.isAvailable == ("isAvailable" !in j || j["isAvailable"].b)
  {
    var id :- IntAt(j, "id");
    var title :- StringAt(j, "title");
    var author :- StringAt(j, "author");
    var isAvailable :- BoolOr(j, "isAvailable", true);
    Success(Book(id, title, author, isAvailable))
  }

  /** `User::to_json`. */
  function UserToJson(u: User): (r: Object)
    ensures r.Keys == {"userId", "userName"}
    ensures IntAt(r, "userId") == Success(u.userId)
    ensures StringAt(r, "userName") == Success(u.userName)
  {
    map["userId" := JInt(u.userId as int), "userName" := JString(u.userName)]
  }

  /** `User::from_json`: `userId` and `userName` must be present and of the right type. */
  function UserFromJson(j: Object): (r: Result<User, Error>)
    ensures r.Success? <==> IntAt(j, "userId").Success? && StringAt(j, "userName").Success?
    ensures r.Success? ==>
      && IntAt(j, "userId") == Success(r.value.userId)
      && StringAt(j, "userName") == Success(r.value.userName)
  {
    var userId :- IntAt(j, "userId");
    var userName :- StringAt(j, "userName");
    Success(User(userId, userName))
  }

  /** Decoding what `to_json` produced gives the same book back, field for field. */
  lemma BookRoundTrip(b: Book)
    ensures BookFromJson(BookToJson(b)) == Success(b)
  {
    var j := BookToJson(b);
    assert IntAt(j, "id") == Success(b.id);
  }

  /** Decoding what `to_json` produced gives the same user back. */
  lemma UserRoundTrip(u: User)
    ensures UserFromJson(UserToJson(u)) == Success(u)
  {
    var j := UserToJson(u);
    assert IntAt(j, "userId") == Success(u.userId);
  }

  /** A payload without `isAvailable` that decodes at all decodes to an available book. */
  lemma AvailableByDefault(j: Object)
    requires "isAvailable" !in j
    requires BookFromJson(j).Success?
    ensures BookFromJson(j).value.isAvailable
  {
  }
}
