/**
 * The book card (client/components/BookCard.tsx): what clicking "Read" and "Download" does,
 * the `/read` query it builds, and the labels it shows. Rendering is not modelled.
 */
module BookCard {
  import opened Wrappers
  import opened JsStrings
  import opened ClientTypes
  import opened AppContext
  import opened UrlSearchParams

  const NoFormatAlert: string := "No reading format available for this book."
  const NoDownloadAlert: string := "Direct download not available for this book."
  const NoDescriptionLabel: string := "No description available."

  // ---------------------------------------------------------------------------
  // handleRead

  /** `book.pdfUrl || book.previewLink`. */
  function UrlToRead(book: ClientBook): Option<string> {
    Or(book.pdfUrl, book.previewLink)
  }

  predicate MarkedUploaded(book: ClientBook) {
    book.isUploaded == Some(true)
  }

  /** The query parameters, in order. */
  function ReadQuery(book: ClientBook): seq<(string, string)> {
    [("url", OrElse(UrlToRead(book), "")),
     ("title", book.title),
     ("id", book.id),
     ("isUploaded", if MarkedUploaded(book) then "true" else "false")]
  }

  datatype ReadOutcome = Navigate(target: string) | ReadAlert(message: string)

  /** What `handleRead` does after recording the book in the history. */
  function ReadDecision(book: ClientBook): ReadOutcome {
    if Truthy(UrlToRead(book)) || !MarkedUploaded(book)
    then Navigate("/read?" + SerializeQuery(ReadQuery(book)))
    else ReadAlert(NoFormatAlert)
  }

  /** Reading navigates exactly when the PDF link or, failing that, the preview link is
      non-empty, or the book is not marked uploaded; the query then carries that link (or the
      empty string), the title, the id and the uploaded mark. */
  lemma ReadDecisionSpec(book: ClientBook)
    ensures ReadDecision(book).Navigate? <==>
      Truthy(book.pdfUrl) || Truthy(book.previewLink) || book.isUploaded != Some(true)
    ensures ReadDecision(book).ReadAlert? ==> ReadDecision(book).message == NoFormatAlert
    ensures ReadDecision(book).Navigate? ==> ReadDecision(book).target == "/read?" + SerializeQuery(ReadQuery(book))
    ensures ReadQuery(book)[0] == ("url", if Truthy(book.pdfUrl) then book.pdfUrl.value
                                          else if Truthy(book.previewLink) then book.previewLink.value else "")
    ensures ReadQuery(book)[1..] == [("title", book.title), ("id", book.id),
                                     ("isUploaded", if book.isUploaded == Some(true) then "true" else "false")]
  {
  }

  /** The reader page parses the navigation target's search part and gets back exactly the
      link, the title and the id the card wrote into it, whatever characters they hold. */
  lemma ReaderRecoversQuery(book: ClientBook)
    requires ReadDecision(book).Navigate?
    ensures var q := ParseQuery(ReadDecision(book).target[|"/read"|..]);
      && q == Some(ReadQuery(book))
      && Get(q.value, "url") == Some(OrElse(UrlToRead(book), ""))
      && Get(q.value, "title") == Some(book.title)
      && Get(q.value, "id") == Some(book.id)
  {
    var pairs := ReadQuery(book);
    var query := SerializeQuery(pairs);
    assert ReadDecision(book).target == "/read?" + query;
    assert ("/read?" + query)[|"/read"|..] == "?" + query;
    QueryRoundTrip(pairs);
    assert pairs[0].0 == "url" && pairs[1].0 == "title" && pairs[2].0 == "id";
    assert Get(pairs, "url") == Some(pairs[0].1);
    assert Get(pairs[1..], "title") == Some(pairs[1].1);
    assert Get(pairs[2..], "id") == Some(pairs[2].1);
    assert pairs[1..][1..] == pairs[2..];
  }

  /** `handleRead`: the book is recorded in the history whatever happens next. */
  method HandleRead(app: App, book: ClientBook) returns (outcome: ReadOutcome)
    requires app.Valid()
    modifies app`recentlyViewed
    ensures app.Valid()
    ensures app.recentlyViewed == Touch(old(app.recentlyViewed), book)
    ensures outcome == ReadDecision(book)
  {
    app.AddToHistory(book);
    outcome := ReadDecision(book);
  }

  // ---------------------------------------------------------------------------
  // handleDownload

  datatype DownloadOutcome = SaveAs(href: string, filename: string) | DownloadAlert(message: string)

  /** The download buttons are rendered exactly when the book has a non-empty PDF link. */
  predicate ShowsDownload(book: ClientBook) {
    Truthy(book.pdfUrl)
  }

  function DownloadDecision(book: ClientBook): DownloadOutcome {
    if Truthy(book.pdfUrl) then SaveAs(book.pdfUrl.value, book.title + ".pdf") else DownloadAlert(NoDownloadAlert)
  }

  /** Download saves the PDF link under "<title>.pdf" exactly when the button is shown. */
  lemma DownloadSpec(book: ClientBook)
    ensures DownloadDecision(book).SaveAs? <==> ShowsDownload(book)
    ensures ShowsDownload(book) ==> DownloadDecision(book) == SaveAs(book.pdfUrl.value, book.title + ".pdf")
    ensures !ShowsDownload(book) ==> DownloadDecision(book) == DownloadAlert(NoDownloadAlert)
  {
  }

  // ---------------------------------------------------------------------------
  // Labels

  /** `book.publishedDate?.substring(0, 4) || 'N/A'`, taking four scalar values rather than four
      UTF-16 code units. */
  function YearLabel(book: ClientBook): string {
    OrElse(if book.publishedDate.Some? then Some(Take(book.publishedDate.value, 4)) else None, "N/A")
  }

  lemma YearLabelSpec(book: ClientBook)
    ensures book.publishedDate.None? || book.publishedDate == Some("") ==> YearLabel(book) == "N/A"
    ensures book.publishedDate.Some? && book.publishedDate.value != "" ==>
      var d := book.publishedDate.value;
      && 1 <= |YearLabel(book)| <= 4
      && YearLabel(book) == d[..|YearLabel(book)|]
      && (|d| >= 4 ==> |YearLabel(book)| == 4)
      && (|d| < 4 ==> YearLabel(book) == d)
  {
  }

  /** `book.pageCount ? `${book.pageCount} pages` : ''`. */
  function PageLabel(book: ClientBook): string {
    if book.pageCount.Some? && book.pageCount.value != 0 then IntToDecimal(book.pageCount.value) + " pages" else ""
  }

  /** A positive page count is shown as its decimal text followed by " pages", which reads back
      as the count; no count or zero shows nothing. */
  lemma PageLabelSpec(book: ClientBook)
    ensures book.pageCount.None? || book.pageCount == Some(0) ==> PageLabel(book) == ""
    ensures book.pageCount.Some? && book.pageCount.value > 0 ==>
      var shown := PageLabel(book);
      var digits := shown[..|shown| - 6];
      && |shown| > 6 && shown[|shown| - 6..] == " pages"
      && AllDigits(digits) && DecimalValue(digits) == book.pageCount.value
  {
    if book.pageCount.Some? && book.pageCount.value > 0 {
      var shown := PageLabel(book);
      assert shown[..|shown| - 6] == NatToDecimal(book.pageCount.value);
      DecimalRoundTrip(book.pageCount.value);
    }
  }

  /** `book.description || "No description available."`. */
  function DescriptionLabel(book: ClientBook): (shown: string)
    ensures shown != ""
    ensures Truthy(book.description) ==> shown == book.description.value
    ensures !Truthy(book.description) ==> shown == NoDescriptionLabel
  {
    OrElseTruthy(book.description, NoDescriptionLabel);
    OrElse(book.description, NoDescriptionLabel)
  }

  /** `book.authors.join(', ')`. */
  function AuthorsLabel(book: ClientBook): string {
    Join(book.authors, ", ")
  }

  /** No authors show as an empty label, one author as their name, and each further author
      follows the others after ", ". */
  lemma AuthorsLabelSpec(book: ClientBook)
    ensures book.authors == [] ==> AuthorsLabel(book) == ""
    ensures |book.authors| == 1 ==> AuthorsLabel(book) == book.authors[0]
    ensures |book.authors| >= 1 ==> book.authors[0] <= AuthorsLabel(book)
    ensures |book.authors| >= 2 ==>
      AuthorsLabel(book) == book.authors[0] + ", " + AuthorsLabel(book.(authors := book.authors[1..]))
  {
  }

  /** Every author's name occurs in the label. */
  lemma AuthorsLabelNamesAuthors(book: ClientBook, i: nat)
    requires i < |book.authors|
    ensures exists k: nat :: OccursAt(AuthorsLabel(book), book.authors[i], k)
  {
    JoinHasPart(book.authors, ", ", i);
    var k: nat :| OccursAt(Join(book.authors, ", "), book.authors[i], k);
    assert OccursAt(AuthorsLabel(book), book.authors[i], k);
  }
}
