# EbookApp — a verified model of its book and account core

EbookApp is a small e-book library. Its server (Express and Mongoose) registers and signs in
users with JSON Web Tokens. It accepts PDF uploads through multer and stores one `Book` record
per upload. It lists and fetches the signed-in user's own books. Its React client keeps the
session in `localStorage`, shows catalogue search results from the Gutendex API, keeps a
"recently viewed" history of at most ten books, and offers an upload form.

This project models that core in Dafny and proves properties of the model:

- `Wrappers`: `Option` and `Result`.
- `JsStrings`: the JavaScript string behaviour the code relies on. This covers truthiness of
  a possibly-undefined string, `a || b`, `String.prototype.trim`, `replace` with a string
  pattern (first occurrence only), number-to-decimal text, `slice(0, n)` and `join`.
- `ServerCommon`: ObjectIds, the JWT signer and verifier, and the `JWT_SECRET || 'secret_key'`
  signing key.
- `BookModel`: the Mongoose `Book` schema, covering its `required` paths, its `trim` setters,
  its defaults and the `ValidationError` message.
- `BooksRoutes`: the `auth` middleware, the multer filter and file name, and the upload, list
  and fetch-by-id routes. `BookStore` is the collection of books that the upload route appends to.
- `AuthRoutes`: login and registration. `UserStore` is the collection of users that
  registration writes to.
- `ClientTypes`: the client's `Book`, `User` and `AuthState` shapes, and the featured books
  the history starts with.
- `AppContext`: the client's application state as a class `App`, with its fields `auth`,
  `myBooks`, `recentlyViewed` and `storage` (for `localStorage`). It has one method per
  context operation.
- `BookService`: the mapping of a Gutendex search reply to client books.
- `UrlSearchParams`: the application/x-www-form-urlencoded format of the WHATWG URL Standard,
  as `URLSearchParams` writes it (`toString()`) and reads it back (the constructor and `get`).
  This includes UTF-8 encoding and decoding.
- `BookCard`: the read and download decisions of a book card, the query it builds for the
  reader page, and its labels.
- `UploadPage`: the upload page's state as a class `UploadForm`, with its drag, drop, pick,
  edit and submit handlers.
- `UploadFlow`: lemmas that connect the upload page's request to the server's upload route.

Some things are parameters of the model:

- The JWT signer and verifier are a pair of functions. The verifier gives the `_id` of the
  decoded payload, or nothing where `jwt.verify` throws. The one property assumed of them, that
  verifying a token signed with a key under the same key yields the id signed, is the
  hypothesis `VerifiesOwnTokens`.
- The bcrypt comparison is a function parameter.
- `JSON.parse` and `JSON.stringify` of a user are function parameters.
- The clock values (`Date.now()` for the stored file name and for `createdAt`) are parameters.
- A server reply received by the client is a value, so `fetch` itself is not modelled.

Three behaviours of the code are modelled as they are written:

- A file that is not a PDF makes multer's filter call back with an `Error`
  (server/routes/books.js:32-37). That error goes to Express's default error handler, not to
  the route's own `400` reply. The model's reply is `ToErrorHandler("Only PDF files are allowed!")`.
- When the schema refuses a book, the route replies `400` with the error's message and stores
  no record. Multer has already written the uploaded file to disk by then, and it stays there.
- Whether registering an email that is already in use fails is decided by the `User` model's
  save. That model is not part of this one, so the outcome is the parameter `saved` of
  `UserStore.Register`.

## Model

| member | source | states |
|---|---|---|
| JsStrings.OrElseTruthy | server/routes/books.js:12 | `a \|\| fallback` is `a` exactly when `a` is a non-empty string and `fallback` otherwise; with a non-empty fallback the result is never empty |
| JsStrings.SpacesFrom | server/models/Book.js:7 | the white space counted from an index ends at the end of the string or at a character that is not white space |
| JsStrings.SpacesFromAreSpace | server/models/Book.js:7 | every character counted from an index is white space |
| JsStrings.SpacesBefore | server/models/Book.js:7 | the white space counted back from an index starts at the start of the string or after a character that is not white space |
| JsStrings.SpacesBeforeAreSpace | server/models/Book.js:7 | every character counted back from an index is white space |
| JsStrings.TrimStart | server/models/Book.js:7 | `trimStart` yields a suffix of the input that is empty or starts with a character that is not white space |
| JsStrings.TrimEnd | server/models/Book.js:7 | `trimEnd` yields a prefix of the input that is empty or ends with a character that is not white space |
| JsStrings.Trim | server/models/Book.js:7 | `trim()`; TrimCutsSpace and TrimEnds state that it cuts exactly the white space at both ends |
| JsStrings.TrimCutsSpace | server/models/Book.js:7 | the trim is a contiguous part of the input with only white space cut before and after it |
| JsStrings.TrimEnds | server/models/Book.js:7 | a trimmed string is empty or has no white space at either end |
| JsStrings.TrimNoop | server/models/Book.js:7 | trimming a string with no white space at either end leaves it unchanged |
| JsStrings.TrimIdempotent | server/models/Book.js:7 | trimming twice is trimming once |
| JsStrings.TrimEmptyIff | server/models/Book.js:4-13 | a string trims to the empty string exactly when it is all white space |
| JsStrings.IndexOf | server/routes/books.js:11 | the search finds the least index at or after the start where the pattern occurs, and finds nothing exactly when it occurs nowhere there |
| JsStrings.ReplaceFirst | server/routes/books.js:11 | `replace` with a string pattern; ReplaceFirstAt, ReplaceFirstAbsent and ReplaceFirstPrefix state that it splices the replacement over the first occurrence only, and changes nothing without one |
| JsStrings.ReplaceFirstPrefix | server/routes/books.js:11 | a pattern the string starts with is the one replaced |
| JsStrings.ReplaceFirstAt | server/routes/books.js:11 | replacing a string pattern that first occurs at position k splices the replacement in at k and leaves the rest untouched |
| JsStrings.ReplaceFirstAbsent | server/routes/books.js:11 | replacing a pattern that occurs nowhere leaves the string unchanged |
| JsStrings.NatToDecimal | server/routes/books.js:26 | the decimal text of a number is non-empty, made only of digits, and has no leading zero unless it is "0" |
| JsStrings.DecimalRoundTrip | server/routes/books.js:26 | reading back the decimal text of a number gives the number |
| JsStrings.JoinHasPart | client/components/BookCard.tsx:89 | every part occurs in the joined string |
| JsStrings.Join | client/components/BookCard.tsx:89 | `parts.join(sep)`, also used for Mongoose's validation message; JoinHasPart and AuthorsLabelSpec state it |
| JsStrings.IntToDecimal | client/services/bookService.ts:19 | `toString()` of an integer, as used for ids and page counts; IntToDecimalRoundTrip states it |
| JsStrings.IntToDecimalRoundTrip | client/services/bookService.ts:19 | the text of a non-negative integer reads back as it, and a negative one is `-` followed by the digits of its magnitude |
| JsStrings.Take | client/context/AppContext.tsx:144 | `slice(0, n)` has length min(n, length) and is a prefix of the input |
| ServerCommon.IssueToken | server/routes/auth.js:14 | `jwt.sign({ _id }, key)` at registration and again at login (auth.js:35) with the shared signing key; AuthenticateIssued states that such a token authenticates as its id |
| ServerCommon.SigningKey | server/routes/books.js:12 | the signing key is `JWT_SECRET` when it is set and non-empty, and the public constant `'secret_key'` otherwise |
| BookModel.MissingPaths | server/models/Book.js:4-31 | a required path is reported missing exactly when it fails: title or author absent or empty after trimming, fileUrl absent or empty, userId absent |
| BookModel.NewBook | server/models/Book.js:3-40 | `new Book(f)` followed by validation; NewBookAcceptedIff, NewBookTrims and NewBookDefaults state when it accepts and what it stores |
| BookModel.ValidationMessage | server/routes/books.js:59 | the `ValidationError`'s message; ValidationMessageNamesPaths states what it says |
| BookModel.ValidationMessageNamesPaths | server/routes/books.js:59 | the message starts with "Book validation failed: " and contains "<path>: Path `<path>` is required." for every failing path |
| BookModel.NewBookAcceptedIff | server/models/Book.js:4-31 | a record validates exactly when title and author are present and not all white space, fileUrl is non-empty and userId is present; a rejection lists exactly the failing paths |
| BookModel.NewBookTrims | server/models/Book.js:4-13 | a saved title and author are the trims of the values supplied, non-empty, free of white space at both ends, and fixed points of trimming |
| BookModel.NewBookDefaults | server/models/Book.js:14-39 | isUploaded defaults to true, createdAt to the creation time, and id, owner, fileUrl and the optional paths are kept as supplied |
| BookModel.OptionalPathsUnconstrained | server/models/Book.js:14-26 | description, coverImage and googleBookId never change whether, or why, a record is rejected |
| BooksRoutes.ExtractToken | server/routes/books.js:11 | a token is extracted exactly when an Authorization header is present |
| BooksRoutes.ExtractBearer | server/routes/books.js:11 | the header `Bearer <token>` yields `<token>` |
| BooksRoutes.ExtractDeletesFirstOccurrence | server/routes/books.js:11 | extraction deletes the first `Bearer ` anywhere in the header, not only a leading one |
| BooksRoutes.ExtractWithoutBearer | server/routes/books.js:11 | a header without `Bearer ` is passed to the verifier as it is |
| BooksRoutes.Authenticate | server/routes/books.js:9-18 | no header means no user; otherwise the user is whatever the verifier makes of the extracted token under the signing key |
| BooksRoutes.AuthenticateIssued | server/routes/books.js:11-13 | a request bearing a token the server issued for id is authenticated as id |
| BooksRoutes.AcceptsFile | server/routes/books.js:32-38 | the filter accepts a file exactly when its MIME type is `application/pdf`; UploadSavedIff and UploadRefusals state the consequences |
| BooksRoutes.StoredFilename | server/routes/books.js:25-27 | `Date.now() + '-' + originalname`; StoredFilenameSplits and StoredFilenameInjective state what it determines |
| BooksRoutes.FileUrl | server/routes/books.js:46 | `'uploads/' + filename`; UploadRecord states the path a saved record gets |
| BooksRoutes.StoredFilenameSplits | server/routes/books.js:25-27 | the stored file name is the clock's digits, a dash, then the original name, so both can be read back |
| BooksRoutes.StoredFilenameInjective | server/routes/books.js:25-27 | two uploads get the same stored name only if their clock values and original names are equal |
| BooksRoutes.UploadDecision | server/routes/books.js:42-61 | the upload pipeline's outcome; UploadSavedIff, UploadRecord and UploadRefusals state when it saves, what it saves and how it refuses |
| BooksRoutes.UploadDecisionSaved | server/routes/books.js:44-57 | a saved upload is the record the schema makes of the authenticated user, the stored file path and the request's fields |
| BooksRoutes.UploadSavedIff | server/routes/books.js:42-61 | an upload is stored exactly when the request authenticates, a PDF file is attached, and title and author are present and not all white space |
| BooksRoutes.UploadRecord | server/routes/books.js:44-57 | a stored upload belongs to the authenticated user, points at `uploads/<time>-<name>`, holds the trimmed title and author and the description as sent, and is marked uploaded |
| BooksRoutes.UploadRefusals | server/routes/books.js:9-18 | no valid token gives 401; a non-PDF goes to the error handler; no file gives 400; every other route reply is 400 |
| BooksRoutes.OwnedBy | server/routes/books.js:66 | the listed books are exactly the stored books whose owner is the user |
| BooksRoutes.OwnedByAppend | server/routes/books.js:56-66 | saving a book adds it to the end of its owner's list and to no one else's |
| BooksRoutes.FindOwned | server/routes/books.js:76 | a book is found only if it has the id and the owner asked for, and nothing is found exactly when no stored book has both |
| BooksRoutes.FindOwnedSeesOnlyOwn | server/routes/books.js:76 | fetching by id searches only the user's own books |
| BooksRoutes.ListBooks | server/routes/books.js:64-71 | without a valid token the reply is 401; with one it is 200 with exactly the user's own books |
| BooksRoutes.GetBook | server/routes/books.js:74-84 | without a valid token the reply is 401; a malformed id gives 500; otherwise the reply is 404 exactly when no stored book has the id and the user as owner, and 200 with such a book otherwise |
| BooksRoutes.GetBookSendsOwnedBook | server/routes/books.js:76-80 | with unique ids, fetching the id of a book the user owns sends exactly that book |
| BooksRoutes.GetOthersBookIsNotFound | server/routes/books.js:76-79 | asking for the id of someone else's book gives 404, the same as an unknown id |
| BooksRoutes.GetDependsOnlyOnOwnBooks | server/routes/books.js:64-84 | the list and fetch replies depend only on the user's own books, so other users' books cannot be observed |
| BooksRoutes.AppendVisibleOnlyToOwner | server/routes/books.js:56-79 | a newly saved book is listed and found for its owner and for no other user |
| BooksRoutes.BookStore.GetSendsStoredBook | server/routes/books.js:76-80 | in a valid store, fetching the id of a book the user owns sends exactly that book, since the store's increasing ids are unique |
| BooksRoutes.BookStore.Upload | server/routes/books.js:42-61 | the store grows by exactly the validated record with a fresh id and the reply is 201 with it, or the store is unchanged and the reply is the refusal |
| AuthRoutes.Login | server/routes/auth.js:22-40 | `POST /login` as written; LoginOutcomes states its replies |
| AuthRoutes.LoginOutcomes | server/routes/auth.js:22-40 | login succeeds exactly when the email is known and the password is a string that matches its hash, with the user and a token for its id; a known email with a password that is not a string gets 400 with the serialized error `{}`; every other failure is 400 "Invalid login credentials" |
| AuthRoutes.LoginNonEnumeration | server/routes/auth.js:25-33 | among string passwords, an unknown email and a wrong password give the same reply |
| AuthRoutes.LoginMissingPasswordReveals | server/routes/auth.js:25-39 | with no string password, a registered email and an unregistered one get different replies |
| AuthRoutes.LoginChecked | server/routes/auth.js:30-33 | login with a non-string password refused as a wrong one; it agrees with the route for every string password |
| AuthRoutes.LoginCheckedNonEnumeration | server/routes/auth.js:25-33 | with that correction, an unknown email and a known email with a missing or wrong password get the same reply |
| AuthRoutes.LoginUsesOnlyHashCompare | server/routes/auth.js:30 | two passwords the hash comparison cannot tell apart get the same reply |
| AuthRoutes.LoginTokenResolves | server/routes/auth.js:35 | the token returned at login authenticates book requests as the user |
| AuthRoutes.UserStore.Register | server/routes/auth.js:8-19 | when the save succeeds the user is stored under the email with an id no earlier user has, and the reply is 201 with a token for that id; otherwise nothing changes and the reply is 400 |
| AuthRoutes.LoginAfterRegister | server/routes/auth.js:12-36 | after registration the same credentials sign in, and the registration token authenticates book requests as the new user |
| AppContext.WithoutId | client/context/AppContext.tsx:143 | filtering keeps exactly the books with another id |
| AppContext.WithoutIdSubsequence | client/context/AppContext.tsx:143 | filtering keeps the remaining books in their order |
| AppContext.WithoutIdDistinct | client/context/AppContext.tsx:143 | filtering a list without repeated ids gives a list without repeated ids |
| AppContext.Touch | client/context/AppContext.tsx:141-146 | `addToHistory`'s update; TouchShape, TouchSingleEntry, TouchKeepsDistinct and TouchIdempotent state what it does to the history |
| AppContext.TouchShape | client/context/AppContext.tsx:141-146 | after viewing a book it is first, the history has at most ten books, and the rest is the earlier history without it, in order, cut to nine |
| AppContext.TouchSingleEntry | client/context/AppContext.tsx:141-146 | the viewed book's id occurs exactly once in the history, at the front |
| AppContext.TouchKeepsDistinct | client/context/AppContext.tsx:141-146 | viewing keeps the history free of repeated ids |
| AppContext.TouchIdempotent | client/context/AppContext.tsx:141-146 | viewing the same book twice in a row is the same as viewing it once |
| AppContext.FromServer | client/context/AppContext.tsx:111-119 | one server record as a client book; FromServerFields states its fields |
| AppContext.FromServerAll | client/context/AppContext.tsx:111-119 | one client book per server record, in the same order |
| AppContext.FromServerFields | client/context/AppContext.tsx:111-119 | a server record becomes a client book with its id, title, single author, description and file path, marked uploaded, with the placeholder cover when it has none |
| AppContext.GetItem | client/context/AppContext.tsx:28-29 | `localStorage.getItem(key)`: the stored value, or none for an absent key; RestoreNeedsBothKeys states what a restore reads |
| AppContext.WithSession | client/context/AppContext.tsx:51-52 | the two `setItem` calls at sign-in; SessionSurvivesReload states that a reload restores the user |
| AppContext.WithoutSession | client/context/AppContext.tsx:92-93 | the two `removeItem` calls at logout; LogoutSurvivesReload states that nothing is restored and other keys stay |
| AppContext.RestoredAuth | client/context/AppContext.tsx:27-33 | the session read back from storage; RestoreNeedsBothKeys, SessionSurvivesReload and LogoutSurvivesReload state when there is one |
| AppContext.RestoreNeedsBothKeys | client/context/AppContext.tsx:27-33 | a session is restored on load exactly when both the token and the stored user are non-empty |
| AppContext.SessionSurvivesReload | client/context/AppContext.tsx:51-53 | after sign-in, reloading restores the same signed-in user |
| AppContext.LogoutSurvivesReload | client/context/AppContext.tsx:90-95 | after logout neither key is stored, reloading restores no session, and other stored keys are kept |
| AppContext.App.constructor | client/context/AppContext.tsx:21-24 | the app starts signed out with no books of its own and the featured books as history |
| AppContext.App.RestoreSession | client/context/AppContext.tsx:27-33 | the signed-in state becomes the restored one when there is one and is kept otherwise |
| AppContext.App.Login | client/context/AppContext.tsx:35-61 | a successful reply stores the token and the user and signs in; a failed one throws the server's `error` text or "Login failed" and changes nothing |
| AppContext.App.Register | client/context/AppContext.tsx:63-88 | a successful reply stores the token and the user and signs in; a failed one throws the server's `message` text or "Registration failed" and changes nothing |
| AppContext.App.StartSession | client/context/AppContext.tsx:49-53 | the token and the stringified user are stored under their keys and the user is signed in |
| AppContext.App.Logout | client/context/AppContext.tsx:90-95 | signs out, removes both stored keys and clears the user's books |
| AppContext.App.AddBook | client/context/AppContext.tsx:137-139 | the book is put in front of the user's books |
| AppContext.App.AddToHistory | client/context/AppContext.tsx:141-146 | the history becomes the touched history and stays free of repeated ids and at most ten long |
| AppContext.App.FetchMyBooks | client/context/AppContext.tsx:100-125 | without a stored token nothing is requested or changed; otherwise the request carries `Bearer <token>` and a successful reply replaces the user's books by the mapped records |
| BookService.ReadLink | client/services/bookService.ts:15 | the `\|\|` chain over the formats; ReadLinkPriority states which format wins |
| BookService.ReadLinkPriority | client/services/bookService.ts:15 | the read link is the first non-empty format in the order html, html utf-8, pdf, plain, plain utf-8, and the last format's value when none is non-empty |
| BookService.AuthorNames | client/services/bookService.ts:21 | one author name per catalogue author, in order |
| BookService.Description | client/services/bookService.ts:22 | the first summary, or "No description available." when there is none; ToClientBookFields states it of each book |
| BookService.ToClientBook | client/services/bookService.ts:12-29 | one catalogue item as a client book; ToClientBookFields states its fields |
| BookService.ToClientBookFields | client/services/bookService.ts:12-29 | a catalogue item becomes a book with its decimal id, title, author names, read link as both PDF and preview link, the JPEG cover or the placeholder, the first summary or "No description available.", and not uploaded |
| BookService.MapResults | client/services/bookService.ts:12 | one client book per result, in the same order |
| BookService.SearchResults | client/services/bookService.ts:10-12 | a reply without results gives no books; otherwise one book per result, in order |
| UrlSearchParams.Utf8RoundTrip | client/components/BookCard.tsx:23-29 | UTF-8 decoding gives back every string from its UTF-8 bytes |
| UrlSearchParams.FormEncode | client/components/BookCard.tsx:23-29 | the form-urlencoded writing of one name or value; FormRoundTrip states that it reads back |
| UrlSearchParams.FormEncodeAlphabet | client/components/BookCard.tsx:23-29 | an encoded name or value uses only unreserved characters, `+`, `%` and upper-case hexadecimal digits |
| UrlSearchParams.FormEncodeNoSeparators | client/components/BookCard.tsx:23-29 | an encoded name or value never contains `&` or `=` |
| UrlSearchParams.FormEncodeUnreserved | client/components/BookCard.tsx:23-29 | a value made of unreserved characters is encoded as itself |
| UrlSearchParams.FormDecode | client/pages/Reader.tsx:12 | a name or value as the parser reads it: `+` and `%XY` to bytes, then UTF-8; FormRoundTrip states that it inverts FormEncode |
| UrlSearchParams.FormRoundTrip | client/pages/Reader.tsx:12-15 | decoding an encoded name or value gives it back, whatever characters it holds |
| UrlSearchParams.FormEncodeInjective | client/components/BookCard.tsx:23-29 | distinct strings have distinct encodings |
| UrlSearchParams.SplitOnJoin | client/pages/Reader.tsx:12 | splitting a join on a separator that no part contains gives back the parts |
| UrlSearchParams.SerializeQuery | client/components/BookCard.tsx:23-29 | `toString()` of the pairs; QueryRoundTrip states that it parses back |
| UrlSearchParams.Get | client/pages/Reader.tsx:13-15 | `get(name)` gives a value exactly when some pair has the name, and that value is the value of the first such pair |
| UrlSearchParams.ParseQuery | client/pages/Reader.tsx:12 | `new URLSearchParams(search)`: a leading `?` dropped, split on `&`, empty segments skipped, each split at its first `=`; QueryRoundTrip states that it inverts SerializeQuery |
| UrlSearchParams.QueryRoundTrip | client/pages/Reader.tsx:12 | parsing a serialized query, with or without its leading `?`, gives back exactly its pairs in order |
| BookCard.UrlToRead | client/components/BookCard.tsx:18 | `book.pdfUrl \|\| book.previewLink`; ReadDecisionSpec and ReaderRecoversQuery state where it goes |
| BookCard.ReadQuery | client/components/BookCard.tsx:23-28 | the reader's query pairs; ReadDecisionSpec and ReaderRecoversQuery state what they carry |
| BookCard.ReadDecision | client/components/BookCard.tsx:15-33 | what clicking "Read" does; ReadDecisionSpec states when it navigates and where |
| BookCard.ReadDecisionSpec | client/components/BookCard.tsx:15-33 | reading goes to the reader exactly when the book has a link or is not an upload, with the url, title, id and upload flag as query; otherwise it alerts "No reading format available for this book." |
| BookCard.ReaderRecoversQuery | client/pages/Reader.tsx:12-15 | the reader page reads back from the card's navigation target exactly the link, the title and the id the card put there |
| BookCard.HandleRead | client/components/BookCard.tsx:15-33 | reading always touches the history and keeps it free of repeated ids and at most ten long, then navigates or alerts as decided |
| BookCard.ShowsDownload | client/components/BookCard.tsx:72 | the download button is rendered (also at line 108) exactly when the PDF link is non-empty; DownloadSpec ties it to the download |
| BookCard.DownloadDecision | client/components/BookCard.tsx:35-48 | what clicking "Download" does; DownloadSpec states it |
| BookCard.DownloadSpec | client/components/BookCard.tsx:35-48 | download saves the PDF link as `<title>.pdf` exactly when the book has a non-empty PDF link (when the button is shown); otherwise it alerts |
| BookCard.YearLabel | client/components/BookCard.tsx:97 | the year label, cut at four scalar values; YearLabelSpec states it |
| BookCard.YearLabelSpec | client/components/BookCard.tsx:97 | the year label is the first four scalar values of the publication date (all of it when shorter), or "N/A" when it is missing or empty |
| BookCard.PageLabel | client/components/BookCard.tsx:98 | the page label; PageLabelSpec states it |
| BookCard.PageLabelSpec | client/components/BookCard.tsx:98 | the page label is `<n> pages` for a positive count and empty for a missing or zero count |
| BookCard.DescriptionLabel | client/components/BookCard.tsx:92 | the shown description is never empty: the description when it is non-empty, "No description available." otherwise |
| BookCard.AuthorsLabel | client/components/BookCard.tsx:89 | the authors label; AuthorsLabelSpec states it |
| BookCard.AuthorsLabelSpec | client/components/BookCard.tsx:89 | no authors give an empty label, one author their name, and each further author follows after ", " |
| BookCard.AuthorsLabelNamesAuthors | client/components/BookCard.tsx:89 | every author's name occurs in the authors label |
| UploadPage.DragActiveAfter | client/pages/UploadBook.tsx:16-24 | the highlight after a drag event; DragSpec states it |
| UploadPage.DragSpec | client/pages/UploadBook.tsx:16-24 | dragenter and dragover turn the highlight on, dragleave turns it off, other events keep it |
| UploadPage.Pick | client/pages/UploadBook.tsx:26-50 | the selection and alert after files are offered; PickSpec states them |
| UploadPage.PickSpec | client/pages/UploadBook.tsx:26-50 | the selection only changes to a PDF first file; a non-PDF first file alerts "Please upload a PDF file." and keeps the selection; no files change nothing |
| UploadPage.SubmissionFor | client/pages/UploadBook.tsx:52-75 | what submitting does; SubmissionSpec states it |
| UploadPage.SubmissionSpec | client/pages/UploadBook.tsx:52-75 | submission is ignored exactly when file, title or author is missing; without a token it alerts; otherwise it sends the file, title, author and description with `Bearer <token>` |
| UploadPage.UploadForm.constructor | client/pages/UploadBook.tsx:10-14 | the form starts with no highlight, no file and empty fields |
| UploadPage.UploadForm.HandleDrag | client/pages/UploadBook.tsx:16-24 | the highlight follows the drag event |
| UploadPage.UploadForm.HandleDrop | client/pages/UploadBook.tsx:26-38 | the highlight is switched off and the dropped files update the selection as picking does |
| UploadPage.UploadForm.HandleChange | client/pages/UploadBook.tsx:40-50 | chosen files update the selection as picking does; an absent file list changes nothing |
| UploadPage.UploadForm.RemoveFile | client/pages/UploadBook.tsx:133 | the selection is cleared |
| UploadPage.UploadForm.SetTitle | client/pages/UploadBook.tsx:157 | the title field becomes the typed value |
| UploadPage.UploadForm.SetAuthor | client/pages/UploadBook.tsx:168 | the author field becomes the typed value |
| UploadPage.UploadForm.SetDescription | client/pages/UploadBook.tsx:180 | the description field becomes the typed value |
| UploadPage.UploadForm.SubmitDisabled | client/pages/UploadBook.tsx:196 | the button's `disabled` condition; HandleSubmit and SubmissionSpec state that submission is ignored exactly then |
| UploadPage.UploadForm.HandleSubmit | client/pages/UploadBook.tsx:52-75 | the submission for the current fields, ignored exactly when the submit button is disabled |
| UploadFlow.BodyOf | server/routes/books.js:42-44 | the `req.body` multer fills from the form's text fields; SubmittedRequestAuthenticates states that it carries the typed fields |
| UploadFlow.SubmittedRequestAuthenticates | client/pages/UploadBook.tsx:56-75 | the page's request, with the token the server issued, authenticates as that user and gives the server the file and the three fields as typed |
| UploadFlow.BlankTitlePassesPageButNotSchema | client/pages/UploadBook.tsx:54 | a title of only spaces passes the page's check but the schema's trimming refuses it, so the server replies 400 and stores nothing |

## Left out

- Network, disk and browser I/O are not modelled: `fetch`, multer's disk write into
  `server/uploads`, the static file route, `alert` and navigation are not performed. Their
  effect is the returned outcome value.
- JWT, bcrypt, `JSON.parse` and `JSON.stringify` are function parameters, not implementations.
- The `User` model (`server/models/User.js`) is not part of this model. Its save outcome is the
  parameter `saved`, passwords are stored as passed (no hashing hook is assumed), and a
  repeated email replaces the earlier entry of the user map.
- AuthRoutes.UserStore.Register: the `400` reply carries no model of the `User` model's error
  object, because that model is not part of this one.
- AuthRoutes.Login: the reply carries the whole user record, password hash included, because
  whether the `User` model hides it is not shown. A request with no email
  (`findOne({ email: undefined })`) is not modelled. Nor is an email that is not a string:
  Mongoose casts a number to its text, and an operator object such as `{"$regex": "^a"}`
  reaches `findOne` (auth.js:25) as a query and matches some user. With such an email the
  `{}` reply of the finding below tells whether any registered email matches a pattern, not
  only whether one given email is registered; the model states the single-email case. A
  password that is not a string is one value, `None`; bcrypt's error message is not modelled,
  since Express serializes the error as `{}` either way.
- ServerCommon.Jwt: a token that verifies but whose payload has no `_id` is not modelled. Such
  a token reaches the handlers with `req.user = { _id: undefined }`; anyone can sign one when
  `JWT_SECRET` is unset. The model's verifier gives either a user id or no user.
- MongoDB ObjectId generation is replaced by a counter in each store. Casting a malformed `:id`
  is the `None` id, answered with a `500` carrying a `CastError`.
- Store failures other than validation (a database error on find or save, answered with `500`
  or `400`) are not modelled.
- BooksRoutes.UploadRefusals: the status Express's default error handler gives to the multer
  filter's error is not modelled.
- Multer's limits, fields other than `file`, and its "Unexpected field" error are not modelled.
- BookModel.NewBook: the order of paths in the `ValidationError` message follows the schema
  order; Mongoose's own ordering is not modelled beyond that.
- JsStrings.NatToDecimal: covers the integers `Date.now()` and numeric ids produce, not
  fractions, exponent notation, `NaN` or `Infinity`.
- BookCard.PageLabelSpec: non-integer and `NaN` page counts are not modelled.
- BookCard.YearLabel: `substring(0, 4)` counts UTF-16 code units and the model counts Unicode
  scalar values. They differ on a date that starts with a character outside the Basic
  Multilingual Plane, which JavaScript counts as two units (and may cut in half). A lone
  surrogate is not a Dafny `char`, so that cut cannot be represented.
- BookCard.YearLabelSpec: "first four characters" means four scalar values, for the reason on
  the line above; for a date whose first four characters are in the Basic Multilingual Plane
  the two counts agree.
- UrlSearchParams.FormEncode: strings are sequences of Unicode scalar values, not of UTF-16
  code units, so the replacement of a lone surrogate by U+FFFD is not modelled.
- UrlSearchParams.FormDecode: bytes that are not well-formed UTF-8 make decoding fail (`None`),
  where the standard's decoder puts U+FFFD in their place. A leading byte order mark is kept,
  as the standard's decoder without BOM keeps it.
- The query string that `searchBooks` builds is not modelled. Nor is what the reader page
  does with the values it reads.
- AppContext.App.Login and AppContext.App.Register: the `fetchMyBooks()` call that follows a
  successful sign-in is the separate method `FetchMyBooks`. Network failures that make `fetch`
  itself throw are not modelled. The client user record carries only `id`, `name` and `email`,
  not every field the spread copies.
- The effect that refetches books when `isAuthenticated` changes (AppContext.tsx:128-132) is
  not modelled. Asynchronous interleaving of state updates is not modelled either.
- The upload page's handling of the server's reply (UploadBook.tsx:77-93) is not modelled:
  it calls `useApp()` inside a callback, navigates home and reloads the page, and otherwise
  alerts the reply text.
- The file size shown in megabytes (floating point) and all rendering are not modelled.
- `searchBooks`'s `catch`, which turns any network or parse failure into the empty list, is
  not modelled.
- The context pages (`Home`, `Login`, `Register`, `Navbar`, `Footer`, `About`, `App`) are not
  modelled. Of `Reader`, only how it reads its query is modelled.

## Findings

| source | as written | input that shows it | evidently intended | confidence | as-written member | corrected member |
|---|---|---|---|---|---|---|
| server/routes/auth.js:30 | `bcrypt.compare(password, user.password)` runs on whatever the body holds; a non-string password makes it reject, and the `catch` answers 400 with the error, which serializes as `{}` | a login body with a registered email and no password gets `{}`; with an unregistered email it gets `{ error: 'Invalid login credentials' }`, so the reply tells whether an email is registered | a password that is not a string is refused with the same "Invalid login credentials" as any wrong one | not executed | AuthRoutes.LoginMissingPasswordReveals | AuthRoutes.LoginChecked |
