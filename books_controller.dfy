/** The book handlers of backend/controllers/books.js: `addBook` and
    `getAllBooks`. */
module BooksController {
  import opened Wrappers
  import opened Json
  import opened BookSchema
  import opened BookStore
  import opened AuthMiddleware
  import Decimal

  const Created := 201
  const Ok := 200
  const BadRequest := 400
  const CreatedMessage := "Livre ajouté avec succès !"

  /** `${protocol}://${host}/images/${filename}`. */
  function ImageUrl(protocol: string, host: string, filename: string): string
  {
    protocol + "://" + host + "/images/" + filename
  }

  /** The object given to `new Book(...)`: the parsed client object without
      its `userId`, then the authenticated user's id and the image URL. */
  function BookRecord(parsed: map<string, JsValue>, auth: AuthInfo, protocol: string, host: string, filename: string)
    : (record: map<string, JsValue>)
    ensures record.Keys == parsed.Keys + {"userId", "imageUrl"}
    ensures record["userId"] == auth.userId
    ensures record["imageUrl"] == JStr(ImageUrl(protocol, host, filename))
    ensures forall k | k in parsed && k != "userId" && k != "imageUrl" :: record[k] == parsed[k]
  {
    var bookObject := parsed - {"userId"};
    bookObject["userId" := auth.userId]["imageUrl" := JStr(ImageUrl(protocol, host, filename))]
  }

  /** The client's own `userId` has no influence on the record: two parsed
      objects that differ only there give the same record. */
  lemma ClientUserIdIgnored(p1: map<string, JsValue>, p2: map<string, JsValue>, auth: AuthInfo,
                            protocol: string, host: string, filename: string)
    requires p1 - {"userId"} == p2 - {"userId"}
    ensures BookRecord(p1, auth, protocol, host, filename) == BookRecord(p2, auth, protocol, host, filename)
  {
  }

  /** The book as the schema reads the record: its owner is always the
      authenticated user and its image is the uploaded file's URL, and the
      client's ratings and average are kept. */
  lemma CreatedBookFields(parsed: map<string, JsValue>, auth: AuthInfo, protocol: string, host: string,
                          filename: string, schema: Schema)
    ensures var b := ToBook(BookRecord(parsed, auth, protocol, host, filename), schema);
      && b.userId == CastText(auth.userId)
      && b.imageUrl == Given(ImageUrl(protocol, host, filename))
      && b.ratings == CastRatings(Get(parsed, "ratings"))
      && ("averageRating" in parsed && parsed["averageRating"] != JUndefined ==>
            b.averageRating == CastNumber(parsed["averageRating"]))
  {
  }

  /** The reply `addBook` sends for a save result. */
  function AddBookReply(r: SaveResult): (reply: Reply)
    ensures reply.status == Created <==> r.Saved?
    ensures reply.status == Created || reply.status == BadRequest
    ensures r.Saved? ==> reply.body == JObj(map["message" := JStr(CreatedMessage)])
    ensures r.SaveRejected? ==> reply.body == JObj(map["error" := r.error])
  {
    match r
    case Saved => Reply(Created, JObj(map["message" := JStr(CreatedMessage)]))
    case SaveRejected(error) => Reply(BadRequest, JObj(map["error" := error]))
  }

  /** `addBook`: `parsed` is `JSON.parse(req.body.book)`, `auth` is
      `req.auth`, `filename` is `req.file.filename`; `fault` is what the
      store would report on a valid write. */
  method AddBook(store: Store, parsed: map<string, JsValue>, auth: AuthInfo, protocol: string, host: string,
                 filename: string, fault: Option<JsValue>)
    returns (reply: Reply)
    requires store.Valid()
    modifies store
    ensures store.Valid()
    ensures var b := ToBook(BookRecord(parsed, auth, protocol, host, filename), store.schema);
      && reply == AddBookReply(SaveVerdict(b, store.schema, fault))
      && store.books == if reply.status == Created then old(store.books) + [b] else old(store.books)
  {
    var record := BookRecord(parsed, auth, protocol, host, filename);
    var newBook := ToBook(record, store.schema);
    var saved := store.Save(newBook, fault);
    reply := AddBookReply(saved);
  }

  /** A book that fails the schema is never reported as created, and
      nothing is stored. */
  lemma InvalidNeverCreated(parsed: map<string, JsValue>, auth: AuthInfo, protocol: string, host: string,
                            filename: string, schema: Schema, fault: Option<JsValue>)
    requires !ValidBook(ToBook(BookRecord(parsed, auth, protocol, host, filename), schema), schema)
    ensures AddBookReply(SaveVerdict(ToBook(BookRecord(parsed, auth, protocol, host, filename), schema), schema, fault))
      == Reply(BadRequest, JObj(map["error" := ValidationError]))
  {
  }

  /** A book record needs a non-empty authenticated user id to be created:
      whatever the client sends, an `undefined`, empty or non-string id is refused. */
  lemma OwnerRequired(parsed: map<string, JsValue>, auth: AuthInfo, protocol: string, host: string,
                      filename: string, loadYear: int)
    requires !Filled(CastText(auth.userId))
    ensures !ValidBook(ToBook(BookRecord(parsed, auth, protocol, host, filename), BookSchemaAt(loadYear)),
                       BookSchemaAt(loadYear))
  {
    CreatedBookFields(parsed, auth, protocol, host, filename, BookSchemaAt(loadYear));
  }

  /** A parsed value that is a number, a boolean, a string or an array is
      spread into an object whose keys are all indices (none for a number or
      a boolean): it has no title, so the book is refused with 400 and
      nothing is stored. */
  lemma IndexKeysRefused(parsed: map<string, JsValue>, auth: AuthInfo, protocol: string, host: string,
                         filename: string, loadYear: int, fault: Option<JsValue>)
    requires forall k | k in parsed :: Decimal.AllDigits(k)
    ensures var b := ToBook(BookRecord(parsed, auth, protocol, host, filename), BookSchemaAt(loadYear));
      AddBookReply(SaveVerdict(b, BookSchemaAt(loadYear), fault)) == Reply(BadRequest, JObj(map["error" := ValidationError]))
  {
    assert !Decimal.IsDigit("title"[0]);
    assert "title" !in parsed;
    var record := BookRecord(parsed, auth, protocol, host, filename);
    assert Get(record, "title") == JUndefined;
    InvalidNeverCreated(parsed, auth, protocol, host, filename, BookSchemaAt(loadYear), fault);
  }

  /** The JSON array `res.json(books)` sends. */
  function BooksJson(books: seq<Book>): (body: JsValue)
    ensures body.JArr? && |body.items| == |books|
    ensures forall i | 0 <= i < |books| :: body.items[i] == BookJson(books[i])
  {
    JArr(seq(|books|, i requires 0 <= i < |books| => BookJson(books[i])))
  }

  /** The reply `getAllBooks` sends for a find result. */
  function GetAllBooksReply(r: FindResult): (reply: Reply)
    ensures reply.status == Ok <==> r.Found?
    ensures reply.status == Ok || reply.status == BadRequest
    ensures r.Found? ==> reply.body == BooksJson(r.books)
    ensures r.FindFailed? ==> reply.body == JObj(map["error" := r.error])
  {
    match r
    case Found(books) => Reply(Ok, BooksJson(books))
    case FindFailed(error) => Reply(BadRequest, JObj(map["error" := error]))
  }

  /** `getAllBooks`: 200 with every stored book in store order, or 400. */
  method GetAllBooks(store: Store, fault: Option<JsValue>) returns (reply: Reply)
    ensures fault.None? ==> reply == Reply(Ok, BooksJson(store.books))
    ensures fault.Some? ==> reply == Reply(BadRequest, JObj(map["error" := fault.value]))
  {
    var found := store.Find(fault);
    reply := GetAllBooksReply(found);
  }

  /** Each book in a 200 reply reads back, through the schema, as the stored book. */
  lemma ListedBooksReadBack(books: seq<Book>, schema: Schema, i: nat)
    requires forall j | 0 <= j < |books| :: ValidBook(books[j], schema)
    requires i < |books|
    ensures ToBook(BooksJson(books).items[i].fields, schema) == books[i]
  {
    ValidIsReadable(books[i], schema);
    BookJsonRoundTrip(books[i], schema);
  }
}
