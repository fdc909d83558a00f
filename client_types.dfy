/** The client's data declarations (client/types.ts) and its featured books (client/constants.ts). */
module ClientTypes {
  import opened Wrappers

  /**
   * `Book` as the client holds it. `description` is declared a string but the server mapping
   * can leave it undefined, so it is optional here; the optional keys of the interface are
   * `Option`s.
   */
  datatype ClientBook = ClientBook(
    id: string,
    title: string,
    authors: seq<string>,
    description: Option<string>,
    thumbnail: string,
    pdfUrl: Option<string>,
    previewLink: Option<string>,
    pageCount: Option<int>,
    publishedDate: Option<string>,
    isUploaded: Option<bool>)

  datatype ClientUser = ClientUser(id: string, name: string, email: string)

  datatype AuthState = AuthState(user: Option<ClientUser>, isAuthenticated: bool)

  const SignedOut: AuthState := AuthState(None, false)

  /** No two entries share an id. */
  predicate DistinctIds(books: seq<ClientBook>) {
    forall i, j :: 0 <= i < j < |books| ==> books[i].id != books[j].id
  }

  const FeaturedBooks: seq<ClientBook> := [
    ClientBook(
      "alice-in-wonderland",
      "Alice's Adventures in Wonderland",
      ["Lewis Carroll"],
      Some("The classic fantasy novel about a young girl named Alice who falls through a rabbit hole into a fantasy world."),
      "https://www.gutenberg.org/cache/epub/11/pg11.cover.medium.jpg",
      Some("https://www.adobe.com/support/products/enterprise/knowledgecenter/media/c4611_sample_explain.pdf"),
      None, Some(100), Some("1865"), None),
    ClientBook(
      "sample-pdf-report",
      "Annual Report Sample",
      ["Corporate Demo"],
      Some("A sample PDF document to demonstrate the reading and downloading capabilities of the EBookVerse application."),
      "https://images.unsplash.com/photo-1544947950-fa07a98d237f?auto=format&fit=crop&q=80&w=800",
      Some("https://unec.edu.az/application/uploads/2014/12/pdf-sample.pdf"),
      None, Some(15), Some("2023"), None)
  ]
}
