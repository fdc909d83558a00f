/**
 * The books router (server/routes/books.js): the bearer-token gate, multer's PDF filter and
 * stored-filename rule, the upload handler as an append to an in-memory document store, and
 * the owner-scoped list and get-by-id handlers as queries over that store.
 */
module BooksRoutes {
  import opened Wrappers
  import opened JsStrings
  import opened ServerCommon
  import opened BookModel

  /** What a books route sends. */
  datatype Body =
    | BookDoc(book: Book)
    | BookDocs(books: seq<Book>)
    | ErrorField(error: string)   // `{ error: ... }`
    | Text(text: string)          // `send(error.message)`
    | ErrorObject(name: string)   // `send(error)` for a thrown error of the named kind
    | NoBody

  datatype Reply =
    | Respond(status: nat, body: Body)
    /** `cb(new Error(message))` in multer: the error goes to Express's error handler. */
    | ToErrorHandler(message: string)

  const Unauthenticated: Reply := Respond(401, ErrorField("Please authenticate."))
  const NotFound: Reply := Respond(404, NoBody)

  // ---------------------------------------------------------------------------
  // The `auth` middleware

  const BearerPrefix: string := "Bearer "

  /** `req.header('Authorization').replace('Bearer ', '')`; `None` when there is no header,
      where calling `replace` on `undefined` throws. */
  function ExtractToken(header: Option<string>): (token: Option<string>)
    ensures token.None? <==> header.None?
  {
    if header.Some? then Some(ReplaceFirst(header.value, BearerPrefix, "")) else None
  }

  /** A header "Bearer X" yields X. */
  lemma ExtractBearer(token: string)
    ensures ExtractToken(Some(BearerPrefix + token)) == Some(token)
  {
    var header := BearerPrefix + token;
    assert BearerPrefix <= header;
    ReplaceFirstPrefix(header, BearerPrefix, "");
    assert header[|BearerPrefix|..] == token;
    assert "" + token == token;
  }

  /** Only the first "Bearer " is deleted, wherever it stands; a header without one is taken
      as the token itself. */
  lemma ExtractDeletesFirstOccurrence(header: string, k: nat)
    requires OccursAt(header, BearerPrefix, k)
    requires forall j: nat :: j < k ==> !OccursAt(header, BearerPrefix, j)
    ensures ExtractToken(Some(header)) == Some(header[..k] + header[k + |BearerPrefix|..])
  {
    ReplaceFirstAt(header, BearerPrefix, "", k);
    assert header[..k] + "" == header[..k];
  }

  lemma ExtractWithoutBearer(header: string)
    requires forall j: nat :: !OccursAt(header, BearerPrefix, j)
    ensures ExtractToken(Some(header)) == Some(header)
  {
    ReplaceFirstAbsent(header, BearerPrefix, "");
  }

  /** The identity `auth` attaches as `req.user._id`, or `None` where it answers 401: no header,
      or a token that does not verify with the signing key. */
  function Authenticate(header: Option<string>, jwtSecret: Option<string>, jwt: Jwt): (user: Option<ObjectId>)
    ensures header.None? ==> user.None?
    ensures header.Some? ==> user == jwt.verify(ReplaceFirst(header.value, BearerPrefix, ""), SigningKey(jwtSecret))
  {
    match ExtractToken(header)
    case None => None
    case Some(token) => jwt.verify(token, SigningKey(jwtSecret))
  }

  /** A token issued by the auth routes, sent as "Bearer <token>", resolves to the user it was
      issued for: the routes sign and verify with the same key fallback. */
  lemma AuthenticateIssued(id: ObjectId, jwtSecret: Option<string>, jwt: Jwt)
    requires VerifiesOwnTokens(jwt)
    ensures Authenticate(Some(BearerPrefix + IssueToken(id, jwtSecret, jwt)), jwtSecret, jwt) == Some(id)
  {
    ExtractBearer(IssueToken(id, jwtSecret, jwt));
  }

  // ---------------------------------------------------------------------------
  // multer: file filter and stored file name

  /** The file part of the multipart request, as multer describes it. */
  datatype UploadedFile = UploadedFile(originalname: string, mimetype: string)

  const PdfMimeType: string := "application/pdf"
  const NotPdfMessage: string := "Only PDF files are allowed!"

  /** `fileFilter`: accepts exactly the MIME type "application/pdf". */
  predicate AcceptsFile(file: UploadedFile) {
    file.mimetype == PdfMimeType
  }

  /** `Date.now() + '-' + file.originalname`, with the time in milliseconds. */
  function StoredFilename(now: nat, originalname: string): string {
    NatToDecimal(now) + "-" + originalname
  }

  /** The stored name splits at its first '-' back into the time, written in decimal, and the
      original name: names from different times never collide. */
  lemma StoredFilenameSplits(now: nat, originalname: string)
    ensures var name := StoredFilename(now, originalname);
            var k := |NatToDecimal(now)|;
            && k < |name| && name[k] == '-'
            && (forall j :: 0 <= j < k ==> name[j] != '-')
            && AllDigits(name[..k]) && DecimalValue(name[..k]) == now
            && name[k + 1..] == originalname
  {
    var name := StoredFilename(now, originalname);
    var k := |NatToDecimal(now)|;
    assert name[..k] == NatToDecimal(now);
    assert name[k + 1..] == originalname;
    DecimalRoundTrip(now);
  }

  lemma StoredFilenameInjective(now1: nat, name1: string, now2: nat, name2: string)
    requires StoredFilename(now1, name1) == StoredFilename(now2, name2)
    ensures now1 == now2 && name1 == name2
  {
    StoredFilenameSplits(now1, name1);
    StoredFilenameSplits(now2, name2);
  }

  /** `'uploads/' + req.file.filename`: the path under the static `/uploads` route. */
  function FileUrl(filename: string): string {
    "uploads/" + filename
  }

  // ---------------------------------------------------------------------------
  // Upload

  /** The text fields of the multipart body (`req.body`); an absent field is `None`. */
  datatype UploadBody = UploadBody(title: Option<string>, author: Option<string>, description: Option<string>)

  /** `error.message` of the TypeError thrown by `req.file.filename` when no file was sent, as
      Node.js 16.9 and later word it; earlier versions say
      "Cannot read property 'filename' of undefined". */
  const NoFileMessage: string := "Cannot read properties of undefined (reading 'filename')"

  /** The values the upload handler passes to `new Book(...)`. */
  function UploadFields(body: UploadBody, fileUrl: string, user: ObjectId): BookFields {
    BookFields(body.title, body.author, body.description, None, Some(fileUrl), None, Some(user), None, None)
  }

  /**
   * `POST /upload` through `auth`, `upload.single('file')` and the handler: the book that is
   * saved (`Ok`), or the reply sent instead (`Err`). `fileTime` is multer's `Date.now()`,
   * `saveTime` the one read when the document is made, `id` the document's fresh `_id`.
   */
  function UploadDecision(header: Option<string>, file: Option<UploadedFile>, body: UploadBody,
                          fileTime: nat, saveTime: int, id: ObjectId,
                          jwtSecret: Option<string>, jwt: Jwt): Result<Book, Reply>
  {
    match Authenticate(header, jwtSecret, jwt)
    case None => Err(Unauthenticated)
    case Some(user) =>
      if file.Some? && !AcceptsFile(file.value) then Err(ToErrorHandler(NotPdfMessage))
      else if file.None? then Err(Respond(400, Text(NoFileMessage)))
      else
        var url := FileUrl(StoredFilename(fileTime, file.value.originalname));
        match NewBook(UploadFields(body, url, user), id, saveTime)
        case Err(e) => Err(Respond(400, Text(ValidationMessage(e))))
        case Ok(b) => Ok(b)
  }

  /** An upload is saved exactly when the requester is authenticated, a PDF file was sent, and
      title and author are not blank. */
  lemma UploadSavedIff(header: Option<string>, file: Option<UploadedFile>, body: UploadBody,
                       fileTime: nat, saveTime: int, id: ObjectId, jwtSecret: Option<string>, jwt: Jwt)
    ensures UploadDecision(header, file, body, fileTime, saveTime, id, jwtSecret, jwt).Ok? <==>
      && Authenticate(header, jwtSecret, jwt).Some?
      && file.Some? && AcceptsFile(file.value)
      && body.title.Some? && !AllSpace(body.title.value)
      && body.author.Some? && !AllSpace(body.author.value)
  {
    if Authenticate(header, jwtSecret, jwt).Some? && file.Some? && AcceptsFile(file.value) {
      var url := FileUrl(StoredFilename(fileTime, file.value.originalname));
      NewBookAcceptedIff(UploadFields(body, url, Authenticate(header, jwtSecret, jwt).value), id, saveTime);
    }
  }

  /** A saved upload is the record the schema makes of the request's fields. */
  lemma UploadDecisionSaved(header: Option<string>, file: Option<UploadedFile>, body: UploadBody,
                            fileTime: nat, saveTime: int, id: ObjectId, jwtSecret: Option<string>, jwt: Jwt)
    requires UploadDecision(header, file, body, fileTime, saveTime, id, jwtSecret, jwt).Ok?
    ensures Authenticate(header, jwtSecret, jwt).Some? && file.Some?
    ensures var url := FileUrl(StoredFilename(fileTime, file.value.originalname));
      var made := NewBook(UploadFields(body, url, Authenticate(header, jwtSecret, jwt).value), id, saveTime);
      made.Ok? && UploadDecision(header, file, body, fileTime, saveTime, id, jwtSecret, jwt) == Ok(made.value)
  {
  }

  /** The saved record is owned by the authenticated user, points at "uploads/<stored name>",
      is marked uploaded, and carries the trimmed title and author and the given description. */
  lemma UploadRecord(header: Option<string>, file: Option<UploadedFile>, body: UploadBody,
                     fileTime: nat, saveTime: int, id: ObjectId, jwtSecret: Option<string>, jwt: Jwt)
    requires UploadDecision(header, file, body, fileTime, saveTime, id, jwtSecret, jwt).Ok?
    ensures var b := UploadDecision(header, file, body, fileTime, saveTime, id, jwtSecret, jwt).value;
      && Some(b.userId) == Authenticate(header, jwtSecret, jwt)
      && b.fileUrl == "uploads/" + NatToDecimal(fileTime) + "-" + file.value.originalname
      && b.id == id && b.isUploaded && b.createdAt == saveTime
      && b.title == Trim(body.title.value) && b.author == Trim(body.author.value)
      && b.description == body.description && b.coverImage.None? && b.googleBookId.None?
  {
    var user := Authenticate(header, jwtSecret, jwt).value;
    var url := FileUrl(StoredFilename(fileTime, file.value.originalname));
    var f := UploadFields(body, url, user);
    var made := NewBook(f, id, saveTime);
    UploadDecisionSaved(header, file, body, fileTime, saveTime, id, jwtSecret, jwt);
    NewBookDefaults(f, id, saveTime);
    var b := made.value;
    assert b.userId == user && b.fileUrl == url;
    assert b.title == Trim(body.title.value) && b.author == Trim(body.author.value);
  }

  /** A saved upload carries the id it was given. */
  lemma UploadRecordId(header: Option<string>, file: Option<UploadedFile>, body: UploadBody,
                       fileTime: nat, saveTime: int, id: ObjectId, jwtSecret: Option<string>, jwt: Jwt)
    requires UploadDecision(header, file, body, fileTime, saveTime, id, jwtSecret, jwt).Ok?
    ensures UploadDecision(header, file, body, fileTime, saveTime, id, jwtSecret, jwt).value.id == id
  {
    UploadRecord(header, file, body, fileTime, saveTime, id, jwtSecret, jwt);
  }

  /** Each way an upload is refused, and the reply it gets. */
  lemma UploadRefusals(header: Option<string>, file: Option<UploadedFile>, body: UploadBody,
                       fileTime: nat, saveTime: int, id: ObjectId, jwtSecret: Option<string>, jwt: Jwt)
    ensures var d := UploadDecision(header, file, body, fileTime, saveTime, id, jwtSecret, jwt);
      && (Authenticate(header, jwtSecret, jwt).None? ==> d == Err(Unauthenticated))
      && (Authenticate(header, jwtSecret, jwt).Some? && file.Some? && !AcceptsFile(file.value) ==>
            d == Err(ToErrorHandler(NotPdfMessage)))
      && (Authenticate(header, jwtSecret, jwt).Some? && file.None? ==> d == Err(Respond(400, Text(NoFileMessage))))
      && (d.Err? && d.error.Respond? && d.error.status != 401 ==> d.error.status == 400)
  {
  }

  // ---------------------------------------------------------------------------
  // Queries over the store

  /** Identifiers are unique in the store. */
  ghost predicate UniqueIds(books: seq<Book>) {
    forall i, j :: 0 <= i < j < |books| ==> books[i].id != books[j].id
  }

  /** `Book.find({ userId: user })`, in store order. */
  function OwnedBy(books: seq<Book>, user: ObjectId): (owned: seq<Book>)
    ensures forall b :: b in owned <==> b in books && b.userId == user
    ensures |owned| <= |books|
  {
    if books == [] then []
    else (if books[0].userId == user then [books[0]] else []) + OwnedBy(books[1..], user)
  }

  lemma {:induction false} OwnedByAppend(books: seq<Book>, b: Book, user: ObjectId)
    ensures OwnedBy(books + [b], user) == OwnedBy(books, user) + (if b.userId == user then [b] else [])
  {
    var last := if b.userId == user then [b] else [];
    if books == [] {
      assert [] + [b] == [b];
      assert OwnedBy([b], user) == last + OwnedBy([], user);
    } else {
      var head := if books[0].userId == user then [books[0]] else [];
      var rest := books[1..];
      assert (books + [b])[0] == books[0];
      assert (books + [b])[1..] == rest + [b];
      OwnedByAppend(rest, b, user);
      calc {
        OwnedBy(books + [b], user);
        head + OwnedBy(rest + [b], user);
        head + (OwnedBy(rest, user) + last);
        (head + OwnedBy(rest, user)) + last;
        OwnedBy(books, user) + last;
      }
    }
  }

  /** `Book.findOne({ _id: id, userId: user })`: the first book matching both. */
  function FindOwned(books: seq<Book>, id: ObjectId, user: ObjectId): (found: Option<Book>)
    ensures found.Some? ==> found.value in books && found.value.id == id && found.value.userId == user
    ensures found.None? <==> forall b :: b in books ==> !(b.id == id && b.userId == user)
  {
    if books == [] then None
    else if books[0].id == id && books[0].userId == user then Some(books[0])
    else FindOwned(books[1..], id, user)
  }

  /** Looking a book up for `user` sees only `user`'s own books. */
  lemma {:induction false} FindOwnedSeesOnlyOwn(books: seq<Book>, id: ObjectId, user: ObjectId)
    ensures FindOwned(books, id, user) == FindOwned(OwnedBy(books, user), id, user)
  {
    if books != [] {
      var rest := OwnedBy(books[1..], user);
      FindOwnedSeesOnlyOwn(books[1..], id, user);
      if books[0].userId == user {
        assert OwnedBy(books, user) == [books[0]] + rest;
        assert ([books[0]] + rest)[1..] == rest;
      } else {
        assert OwnedBy(books, user) == rest;
      }
    }
  }

  /** `GET /`: the requester's books. */
  function ListBooks(books: seq<Book>, header: Option<string>, jwtSecret: Option<string>, jwt: Jwt): (reply: Reply)
    ensures Authenticate(header, jwtSecret, jwt).None? ==> reply == Unauthenticated
    ensures Authenticate(header, jwtSecret, jwt).Some? ==>
      && reply.Respond? && reply.status == 200 && reply.body.BookDocs?
      && forall b :: b in reply.body.books <==> b in books && Some(b.userId) == Authenticate(header, jwtSecret, jwt)
  {
    match Authenticate(header, jwtSecret, jwt)
    case None => Unauthenticated
    case Some(user) => Respond(200, BookDocs(OwnedBy(books, user)))
  }

  /**
   * `GET /:id`. `id` is the path parameter cast to an ObjectId, `None` when the cast fails
   * (a CastError, answered 500). A book is sent only when both its id and its owner match.
   */
  function GetBook(books: seq<Book>, header: Option<string>, id: Option<ObjectId>,
                   jwtSecret: Option<string>, jwt: Jwt): (reply: Reply)
    ensures Authenticate(header, jwtSecret, jwt).None? ==> reply == Unauthenticated
    ensures reply.Respond? && reply.status == 200 ==>
      && reply.body.BookDoc? && reply.body.book in books && Some(reply.body.book.id) == id
      && Some(reply.body.book.userId) == Authenticate(header, jwtSecret, jwt)
    ensures Authenticate(header, jwtSecret, jwt).Some? && id.None? ==> reply == Respond(500, ErrorObject("CastError"))
    ensures Authenticate(header, jwtSecret, jwt).Some? && id.Some? ==>
      && (reply == NotFound || (reply.Respond? && reply.status == 200))
      && (reply == NotFound <==>
            forall b :: b in books ==> !(b.id == id.value && Some(b.userId) == Authenticate(header, jwtSecret, jwt)))
  {
    match Authenticate(header, jwtSecret, jwt)
    case None => Unauthenticated
    case Some(user) =>
      if id.None? then Respond(500, ErrorObject("CastError"))
      else match FindOwned(books, id.value, user)
        case None => NotFound
        case Some(b) => Respond(200, BookDoc(b))
  }

  /** With unique identifiers, a book the requester owns is the one sent for its id. */
  lemma GetBookSendsOwnedBook(books: seq<Book>, header: Option<string>, b: Book,
                              jwtSecret: Option<string>, jwt: Jwt)
    requires UniqueIds(books)
    requires b in books && Some(b.userId) == Authenticate(header, jwtSecret, jwt)
    ensures GetBook(books, header, Some(b.id), jwtSecret, jwt) == Respond(200, BookDoc(b))
  {
    var reply := GetBook(books, header, Some(b.id), jwtSecret, jwt);
    assert reply != NotFound;
    var k :| 0 <= k < |books| && books[k] == reply.body.book;
    var m :| 0 <= m < |books| && books[m] == b;
    assert books[k].id == books[m].id;
  }

  /** Another user's book gets exactly the 404 of an id that does not exist. */
  lemma GetOthersBookIsNotFound(books: seq<Book>, header: Option<string>, id: ObjectId,
                                jwtSecret: Option<string>, jwt: Jwt)
    requires Authenticate(header, jwtSecret, jwt).Some?
    requires forall b :: b in books && b.id == id ==> Some(b.userId) != Authenticate(header, jwtSecret, jwt)
    ensures GetBook(books, header, Some(id), jwtSecret, jwt) == NotFound
  {
  }

  /** Non-disclosure: what get-by-id answers a user depends only on that user's own books, so two
      stores that differ only in other users' books are indistinguishable to them. */
  lemma GetDependsOnlyOnOwnBooks(books1: seq<Book>, books2: seq<Book>, header: Option<string>,
                                 id: Option<ObjectId>, jwtSecret: Option<string>, jwt: Jwt)
    requires Authenticate(header, jwtSecret, jwt).Some?
    requires OwnedBy(books1, Authenticate(header, jwtSecret, jwt).value) == OwnedBy(books2, Authenticate(header, jwtSecret, jwt).value)
    ensures GetBook(books1, header, id, jwtSecret, jwt) == GetBook(books2, header, id, jwtSecret, jwt)
    ensures ListBooks(books1, header, jwtSecret, jwt) == ListBooks(books2, header, jwtSecret, jwt)
  {
    if id.Some? {
      var user := Authenticate(header, jwtSecret, jwt).value;
      FindOwnedSeesOnlyOwn(books1, id.value, user);
      FindOwnedSeesOnlyOwn(books2, id.value, user);
    }
  }

  /** After a book with a fresh id is appended, its owner lists it last and finds it by id;
      every other user's list and lookups are as before. */
  lemma {:induction false} AppendVisibleOnlyToOwner(books: seq<Book>, b: Book, other: ObjectId)
    requires forall x :: x in books ==> x.id != b.id
    requires other != b.userId
    ensures OwnedBy(books + [b], b.userId) == OwnedBy(books, b.userId) + [b]
    ensures OwnedBy(books + [b], other) == OwnedBy(books, other)
    ensures FindOwned(books + [b], b.id, b.userId) == Some(b)
    ensures FindOwned(books + [b], b.id, other) == None
  {
    OwnedByAppend(books, b, b.userId);
    OwnedByAppend(books, b, other);
    assert b in books + [b];
  }

  // ---------------------------------------------------------------------------
  // The store the handlers update

  /** Identifiers increase in insertion order and stay below the counter `next`. */
  ghost predicate IdsBelow(books: seq<Book>, next: ObjectId) {
    && (forall i, j :: 0 <= i < j < |books| ==> books[i].id < books[j].id)
    && (forall i :: 0 <= i < |books| ==> books[i].id < next)
  }

  /** Increasing identifiers are unique. */
  lemma IdsBelowUnique(books: seq<Book>, next: ObjectId)
    requires IdsBelow(books, next)
    ensures UniqueIds(books)
  {
  }

  /** Appending a record with the counter's id keeps the ordering, and that id is new. */
  lemma AppendFreshId(books: seq<Book>, next: ObjectId, b: Book)
    requires IdsBelow(books, next) && b.id == next
    ensures IdsBelow(books + [b], next + 1)
    ensures forall x :: x in books ==> x.id != b.id
  {
  }

  /** The `books` collection: documents in insertion order, and the counter that stands for
      ObjectId generation. */
  class BookStore {
    var books: seq<Book>
    var nextId: ObjectId

    ghost predicate Valid()
      reads this
    {
      IdsBelow(books, nextId)
    }

    /** In a valid store, `GET /:id` sends the requester's own book for its id: identifiers are
        unique, so no other record can be found first. */
    lemma GetSendsStoredBook(header: Option<string>, b: Book, jwtSecret: Option<string>, jwt: Jwt)
      requires Valid()
      requires b in books && Some(b.userId) == Authenticate(header, jwtSecret, jwt)
      ensures GetBook(books, header, Some(b.id), jwtSecret, jwt) == Respond(200, BookDoc(b))
    {
      IdsBelowUnique(books, nextId);
      GetBookSendsOwnedBook(books, header, b, jwtSecret, jwt);
    }

    constructor ()
      ensures Valid() && books == [] && nextId == 0
    {
      books := [];
      nextId := 0;
    }

    /** `POST /upload`: saves exactly the record `UploadDecision` yields under the next fresh id,
        appended after all existing ones, or changes nothing and sends the refusal. */
    method Upload(header: Option<string>, file: Option<UploadedFile>, body: UploadBody,
                  fileTime: nat, saveTime: int, jwtSecret: Option<string>, jwt: Jwt) returns (reply: Reply)
      requires Valid()
      modifies this
      ensures Valid()
      ensures var d := UploadDecision(header, file, body, fileTime, saveTime, old(nextId), jwtSecret, jwt);
        && (d.Ok? ==> && books == old(books) + [d.value]
                      && nextId == old(nextId) + 1
                      && (forall x :: x in old(books) ==> x.id != d.value.id)
                      && reply == Respond(201, BookDoc(d.value)))
        && (d.Err? ==> books == old(books) && nextId == old(nextId) && reply == d.error)
    {
      var decision := UploadDecision(header, file, body, fileTime, saveTime, nextId, jwtSecret, jwt);
      if decision.Ok? {
        var b := decision.value;
        UploadRecordId(header, file, body, fileTime, saveTime, nextId, jwtSecret, jwt);
        AppendFreshId(books, nextId, b);
        books := books + [b];
        nextId := nextId + 1;
        reply := Respond(201, BookDoc(b));
        assert Valid();
      } else {
        reply := decision.error;
        assert Valid();
      }
    }
  }
}
