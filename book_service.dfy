/**
 * The catalog search mapping (client/services/bookService.ts): how one result of the public
 * catalog becomes a client book. The request itself and its failure path are not modelled;
 * the parsed reply is the input.
 */
module BookService {
  import opened Wrappers
  import opened JsStrings
  import opened ClientTypes

  datatype CatalogAuthor = CatalogAuthor(name: string)

  /** One entry of `results`; `formats` maps a MIME type to a link. */
  datatype CatalogItem = CatalogItem(
    id: int,
    title: string,
    authors: seq<CatalogAuthor>,
    summaries: Option<seq<string>>,
    formats: map<string, string>)

  /** The parsed reply; `results` may be missing. */
  datatype SearchReply = SearchReply(results: Option<seq<CatalogItem>>)

  const CatalogPlaceholder: string := "https://via.placeholder.com/128x192?text=No+Cover"
  const NoDescription: string := "No description available."

  /** The formats tried for the read link, in priority order. */
  const ReadFormats: seq<string> := ["text/html", "text/html; charset=utf-8", "application/pdf",
                                     "text/plain", "text/plain; charset=utf-8"]

  function Format(formats: map<string, string>, key: string): Option<string> {
    if key in formats then Some(formats[key]) else None
  }

  /** `v0 || v1 || ... || vn`: the first truthy value, otherwise the last value as it is. */
  function OrChain(values: seq<Option<string>>): Option<string>
    requires |values| >= 1
  {
    if |values| == 1 then values[0] else Or(values[0], OrChain(values[1..]))
  }

  lemma {:induction false} OrChainFirstTruthy(values: seq<Option<string>>, k: nat)
    requires k < |values|
    requires Truthy(values[k])
    requires forall j :: 0 <= j < k ==> !Truthy(values[j])
    ensures OrChain(values) == values[k]
  {
    if k > 0 {
      OrChainFirstTruthy(values[1..], k - 1);
    }
  }

  lemma {:induction false} OrChainNoneTruthy(values: seq<Option<string>>)
    requires |values| >= 1
    requires forall j :: 0 <= j < |values| ==> !Truthy(values[j])
    ensures OrChain(values) == values[|values| - 1]
  {
    if |values| > 1 {
      OrChainNoneTruthy(values[1..]);
    }
  }

  function FormatValues(formats: map<string, string>): (values: seq<Option<string>>)
    ensures |values| == |ReadFormats|
    ensures forall j :: 0 <= j < |ReadFormats| ==> values[j] == Format(formats, ReadFormats[j])
  {
    seq(|ReadFormats|, j requires 0 <= j < |ReadFormats| => Format(formats, ReadFormats[j]))
  }

  /** The read link: the five formats joined with `||`. */
  function ReadLink(formats: map<string, string>): Option<string> {
    OrChain(FormatValues(formats))
  }

  /** The read link is the value of the first format, in priority order, that is present and
      non-empty; when there is none it is falsy (the last format's value, or missing). */
  lemma ReadLinkPriority(formats: map<string, string>)
    ensures forall k :: 0 <= k < |ReadFormats| && Truthy(Format(formats, ReadFormats[k]))
                        && (forall j :: 0 <= j < k ==> !Truthy(Format(formats, ReadFormats[j])))
                        ==> ReadLink(formats) == Format(formats, ReadFormats[k])
    ensures (forall j :: 0 <= j < |ReadFormats| ==> !Truthy(Format(formats, ReadFormats[j]))) ==>
              ReadLink(formats) == Format(formats, ReadFormats[|ReadFormats| - 1]) && !Truthy(ReadLink(formats))
  {
    var values := FormatValues(formats);
    forall k | 0 <= k < |ReadFormats| && Truthy(Format(formats, ReadFormats[k]))
               && (forall j :: 0 <= j < k ==> !Truthy(Format(formats, ReadFormats[j])))
      ensures ReadLink(formats) == Format(formats, ReadFormats[k])
    {
      OrChainFirstTruthy(values, k);
    }
    if forall j :: 0 <= j < |ReadFormats| ==> !Truthy(Format(formats, ReadFormats[j])) {
      OrChainNoneTruthy(values);
    }
  }

  /** The description: the first summary when there is one, otherwise the fixed text. */
  function Description(summaries: Option<seq<string>>): string {
    if summaries.Some? && |summaries.value| > 0 then summaries.value[0] else NoDescription
  }

  function AuthorNames(authors: seq<CatalogAuthor>): (names: seq<string>)
    ensures |names| == |authors|
    ensures forall i :: 0 <= i < |authors| ==> names[i] == authors[i].name
  {
    if authors == [] then [] else [authors[0].name] + AuthorNames(authors[1..])
  }

  /** The per-item translation inside `results.map`. */
  function ToClientBook(item: CatalogItem): ClientBook {
    var readUrl := ReadLink(item.formats);
    ClientBook(
      id := IntToDecimal(item.id),
      title := item.title,
      authors := AuthorNames(item.authors),
      description := Some(Description(item.summaries)),
      thumbnail := OrElse(Format(item.formats, "image/jpeg"), CatalogPlaceholder),
      pdfUrl := readUrl,
      previewLink := readUrl,
      pageCount := Some(0),
      publishedDate := Some(""),
      isUploaded := Some(false))
  }

  /** Each catalog book: its id in decimal, its authors' names in order, the read link as both
      PDF and preview link, the JPEG cover or the placeholder, the first summary or the fixed
      text, page count 0, empty date, not uploaded. */
  lemma ToClientBookFields(item: CatalogItem)
    ensures var b := ToClientBook(item);
      && b.id == IntToDecimal(item.id)
      && b.title == item.title
      && |b.authors| == |item.authors| && (forall i :: 0 <= i < |item.authors| ==> b.authors[i] == item.authors[i].name)
      && b.pdfUrl == b.previewLink == ReadLink(item.formats)
      && ("image/jpeg" in item.formats && item.formats["image/jpeg"] != "" ==> b.thumbnail == item.formats["image/jpeg"])
      && (!("image/jpeg" in item.formats && item.formats["image/jpeg"] != "") ==> b.thumbnail == CatalogPlaceholder)
      && (item.summaries.Some? && |item.summaries.value| > 0 ==> b.description == Some(item.summaries.value[0]))
      && (item.summaries.None? || item.summaries.value == [] ==> b.description == Some(NoDescription))
      && b.pageCount == Some(0) && b.publishedDate == Some("") && b.isUploaded == Some(false)
  {
  }

  function MapResults(items: seq<CatalogItem>): (books: seq<ClientBook>)
    ensures |books| == |items|
    ensures forall i :: 0 <= i < |items| ==> books[i] == ToClientBook(items[i])
  {
    if items == [] then [] else [ToClientBook(items[0])] + MapResults(items[1..])
  }

  /** `searchBooks` after the reply is parsed: no `results` gives the empty list; otherwise one
      book per result, in the same order. */
  function SearchResults(reply: SearchReply): (books: seq<ClientBook>)
    ensures reply.results.None? ==> books == []
    ensures reply.results.Some? ==>
      |books| == |reply.results.value|
      && forall i :: 0 <= i < |books| ==> books[i] == ToClientBook(reply.results.value[i])
  {
    if reply.results.None? then [] else MapResults(reply.results.value)
  }
}
