/**
 * The `Book` schema (server/models/Book.js) as a validating constructor: what `new Book({...})`
 * followed by Mongoose validation on `save()` turns a set of supplied values into.
 */
module BookModel {
  import opened Wrappers
  import opened JsStrings
  import opened ServerCommon

  /** The values handed to `new Book({...})`; a key that is absent (or `undefined`) is `None`. */
  datatype BookFields = BookFields(
    title: Option<string>,
    author: Option<string>,
    description: Option<string>,
    coverImage: Option<string>,
    fileUrl: Option<string>,
    googleBookId: Option<string>,
    userId: Option<ObjectId>,
    isUploaded: Option<bool>,
    createdAt: Option<int>)

  /** A stored book document. */
  datatype Book = Book(
    id: ObjectId,
    title: string,
    author: string,
    description: Option<string>,
    coverImage: Option<string>,
    fileUrl: string,
    googleBookId: Option<string>,
    userId: ObjectId,
    isUploaded: bool,
    createdAt: int)

  /** The schema's required paths. */
  datatype RequiredPath = TitlePath | AuthorPath | FileUrlPath | UserIdPath

  function PathName(p: RequiredPath): string {
    match p
    case TitlePath => "title"
    case AuthorPath => "author"
    case FileUrlPath => "fileUrl"
    case UserIdPath => "userId"
  }

  /** Mongoose's ValidationError, listing the required paths that failed, in schema order. */
  datatype ValidationError = ValidationError(missing: seq<RequiredPath>)

  /** The `trim: true` setter: applied to a supplied string, nothing to apply to an absent one. */
  function TrimSetter(v: Option<string>): Option<string> {
    if v.Some? then Some(Trim(v.value)) else None
  }

  /** Mongoose's `required` check on a String path: a string of non-zero length. */
  predicate PresentString(v: Option<string>) {
    v.Some? && v.value != ""
  }

  /** The required paths (title, author, fileUrl, userId) that `f` fails, in schema order. */
  function MissingPaths(f: BookFields): (missing: seq<RequiredPath>)
    ensures TitlePath in missing <==> !PresentString(TrimSetter(f.title))
    ensures AuthorPath in missing <==> !PresentString(TrimSetter(f.author))
    ensures FileUrlPath in missing <==> !PresentString(f.fileUrl)
    ensures UserIdPath in missing <==> f.userId.None?
  {
    var title := if PresentString(TrimSetter(f.title)) then [] else [TitlePath];
    var author := if PresentString(TrimSetter(f.author)) then [] else [AuthorPath];
    var fileUrl := if PresentString(f.fileUrl) then [] else [FileUrlPath];
    var userId := if f.userId.Some? then [] else [UserIdPath];
    assert forall p :: p in title + author + fileUrl + userId <==>
      p in title || p in author || p in fileUrl || p in userId;
    title + author + fileUrl + userId
  }

  /** `error.message` of the ValidationError: "Book validation failed: title: Path `title` is required., ...". */
  function ValidationMessage(e: ValidationError): string {
    "Book validation failed: " + Join(seq(|e.missing|, i requires 0 <= i < |e.missing| => PathMessage(e.missing[i])), ", ")
  }

  /** The message of one failing `required` validator. */
  function PathMessage(p: RequiredPath): string {
    PathName(p) + ": Path `" + PathName(p) + "` is required."
  }

  /** The message starts with the model's name and names every failing path. */
  lemma ValidationMessageNamesPaths(e: ValidationError, p: RequiredPath)
    requires p in e.missing
    ensures "Book validation failed: " <= ValidationMessage(e)
    ensures exists k: nat :: OccursAt(ValidationMessage(e), PathMessage(p), k)
  {
    var parts := seq(|e.missing|, i requires 0 <= i < |e.missing| => PathMessage(e.missing[i]));
    var i :| 0 <= i < |e.missing| && e.missing[i] == p;
    JoinHasPart(parts, ", ", i);
    var k: nat :| OccursAt(Join(parts, ", "), parts[i], k);
    OccursAfter("Book validation failed: ", Join(parts, ", "), PathMessage(p), k);
  }

  /**
   * `new Book(f)` given the fresh `_id` and the moment `Date.now()` is read, then validated:
   * title and author are trimmed and must then be non-empty, fileUrl and userId are required,
   * isUploaded defaults to true and createdAt to `now`; the other paths are copied as given.
   */
  function NewBook(f: BookFields, id: ObjectId, now: int): Result<Book, ValidationError> {
    var missing := MissingPaths(f);
    if missing != [] then Err(ValidationError(missing))
    else Ok(Book(
      id := id,
      title := Trim(f.title.value),
      author := Trim(f.author.value),
      description := f.description,
      coverImage := f.coverImage,
      fileUrl := f.fileUrl.value,
      googleBookId := f.googleBookId,
      userId := f.userId.value,
      isUploaded := f.isUploaded.GetOr(true),
      createdAt := f.createdAt.GetOr(now)))
  }

  /** A record is accepted exactly when title and author are non-blank and fileUrl and userId
      are present; otherwise the error names each failing path. */
  lemma NewBookAcceptedIff(f: BookFields, id: ObjectId, now: int)
    ensures NewBook(f, id, now).Ok? <==>
      && f.title.Some? && !AllSpace(f.title.value)
      && f.author.Some? && !AllSpace(f.author.value)
      && PresentString(f.fileUrl)
      && f.userId.Some?
    ensures NewBook(f, id, now).Err? ==> NewBook(f, id, now).error.missing == MissingPaths(f)
  {
    if f.title.Some? { TrimEmptyIff(f.title.value); }
    if f.author.Some? { TrimEmptyIff(f.author.value); }
    if MissingPaths(f) != [] {
      var p := MissingPaths(f)[0];
      assert p in MissingPaths(f);
    }
  }

  /** Title and author are stored trimmed: non-empty, without white space at either end, and
      each is the trim of the supplied value. */
  lemma NewBookTrims(f: BookFields, id: ObjectId, now: int)
    requires NewBook(f, id, now).Ok?
    ensures var b := NewBook(f, id, now).value;
      && b.title == Trim(f.title.value) && b.author == Trim(f.author.value)
      && b.title != "" && !IsJsSpace(b.title[0]) && !IsJsSpace(b.title[|b.title| - 1])
      && b.author != "" && !IsJsSpace(b.author[0]) && !IsJsSpace(b.author[|b.author| - 1])
      && Trim(b.title) == b.title && Trim(b.author) == b.author
  {
    TrimEnds(f.title.value);
    TrimEnds(f.author.value);
    TrimIdempotent(f.title.value);
    TrimIdempotent(f.author.value);
  }

  /** Defaults and pass-through: isUploaded is true unless supplied, createdAt is the creation
      time unless supplied, the optional paths are kept as given, and the id and owner are the
      ones supplied. */
  lemma NewBookDefaults(f: BookFields, id: ObjectId, now: int)
    requires NewBook(f, id, now).Ok?
    ensures var b := NewBook(f, id, now).value;
      && b.id == id
      && Some(b.userId) == f.userId
      && Some(b.fileUrl) == f.fileUrl
      && b.isUploaded == (f.isUploaded != Some(false))
      && (f.createdAt.None? ==> b.createdAt == now)
      && (f.createdAt.Some? ==> b.createdAt == f.createdAt.value)
      && b.description == f.description
      && b.coverImage == f.coverImage
      && b.googleBookId == f.googleBookId
  {
  }

  /** The optional paths never cause a rejection: changing them changes nothing about whether,
      or why, a record is rejected. */
  lemma OptionalPathsUnconstrained(f: BookFields, description: Option<string>, coverImage: Option<string>,
                                   googleBookId: Option<string>, id: ObjectId, now: int)
    ensures var g := f.(description := description, coverImage := coverImage, googleBookId := googleBookId);
      NewBook(g, id, now).Ok? == NewBook(f, id, now).Ok?
      && (NewBook(f, id, now).Err? ==> NewBook(g, id, now) == NewBook(f, id, now))
  {
  }
}
