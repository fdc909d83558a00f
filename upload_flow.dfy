/**
 * Where the upload page's request meets the books router: the form the page sends, read the
 * way multer reads a multipart body, and the bearer header it carries.
 */
module UploadFlow {
  import opened Wrappers
  import opened JsStrings
  import opened ServerCommon
  import BooksRoutes
  import UploadPage
  import AppContext

  /** The file part named "file", as multer describes it: the browser's name and type. */
  function FilePart(form: seq<UploadPage.FormEntry>): Option<BooksRoutes.UploadedFile> {
    if form == [] then None
    else if form[0].FileEntry? && form[0].key == "file"
    then Some(BooksRoutes.UploadedFile(form[0].file.name, form[0].file.mimeType))
    else FilePart(form[1..])
  }

  /** A text field of the multipart body. */
  function TextField(form: seq<UploadPage.FormEntry>, key: string): Option<string> {
    if form == [] then None
    else if form[0].TextEntry? && form[0].key == key then Some(form[0].value)
    else TextField(form[1..], key)
  }

  function BodyOf(form: seq<UploadPage.FormEntry>): BooksRoutes.UploadBody {
    BooksRoutes.UploadBody(TextField(form, "title"), TextField(form, "author"), TextField(form, "description"))
  }

  /** A page with a file, a title and an author, holding a token that login or register issued
      for a user, sends a request that the books gate attributes to that user, with the PDF as
      the file part and the three text fields as typed. */
  lemma SubmittedRequestAuthenticates(file: UploadPage.File, title: string, author: string, description: string,
                                      storage: map<string, string>, id: ObjectId,
                                      jwtSecret: Option<string>, jwt: Jwt)
    requires VerifiesOwnTokens(jwt)
    requires title != "" && author != ""
    requires AppContext.TokenKey in storage && storage[AppContext.TokenKey] == IssueToken(id, jwtSecret, jwt)
    requires IssueToken(id, jwtSecret, jwt) != ""
    ensures var s := UploadPage.SubmissionFor(Some(file), title, author, description, storage);
      && s.Send?
      && BooksRoutes.Authenticate(Some(s.authorization), jwtSecret, jwt) == Some(id)
      && FilePart(s.form) == Some(BooksRoutes.UploadedFile(file.name, file.mimeType))
      && BodyOf(s.form) == BooksRoutes.UploadBody(Some(title), Some(author), Some(description))
  {
    BooksRoutes.AuthenticateIssued(id, jwtSecret, jwt);
    var form := UploadPage.SubmissionFor(Some(file), title, author, description, storage).form;
    var f1 := form[1..];
    var f2 := f1[1..];
    var f3 := f2[1..];
    assert f3 == [UploadPage.TextEntry("description", description)];
    assert TextField(form, "title") == TextField(f1, "title") == Some(title);
    assert TextField(form, "author") == TextField(f1, "author") == TextField(f2, "author") == Some(author);
    assert TextField(form, "description") == TextField(f1, "description") == TextField(f2, "description")
        == TextField(f3, "description") == Some(description);
  }

  /** The page lets a title of only spaces through (it checks for the empty string), but the
      schema trims it to nothing, so the server refuses the upload with 400 and saves nothing. */
  lemma BlankTitlePassesPageButNotSchema(file: UploadPage.File, author: string, description: string,
                                         storage: map<string, string>, id: ObjectId,
                                         fileTime: nat, saveTime: int, docId: ObjectId,
                                         jwtSecret: Option<string>, jwt: Jwt)
    requires VerifiesOwnTokens(jwt)
    requires file.mimeType == UploadPage.PdfType && author != ""
    requires AppContext.TokenKey in storage && storage[AppContext.TokenKey] == IssueToken(id, jwtSecret, jwt)
    requires IssueToken(id, jwtSecret, jwt) != ""
    ensures var s := UploadPage.SubmissionFor(Some(file), " ", author, description, storage);
      && s.Send?
      && var d := BooksRoutes.UploadDecision(Some(s.authorization), FilePart(s.form), BodyOf(s.form),
                                            fileTime, saveTime, docId, jwtSecret, jwt);
         d.Err? && d.error.Respond? && d.error.status == 400
  {
    SubmittedRequestAuthenticates(file, " ", author, description, storage, id, jwtSecret, jwt);
    var s := UploadPage.SubmissionFor(Some(file), " ", author, description, storage);
    assert AllSpace(" ");
    BooksRoutes.UploadSavedIff(Some(s.authorization), FilePart(s.form), BodyOf(s.form),
                               fileTime, saveTime, docId, jwtSecret, jwt);
    BooksRoutes.UploadRefusals(Some(s.authorization), FilePart(s.form), BodyOf(s.form),
                               fileTime, saveTime, docId, jwtSecret, jwt);
  }
}
