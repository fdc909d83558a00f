/**
 * The application state provider (client/context/AppContext.tsx): the signed-in user, the
 * user's uploaded books, the recently-viewed history, and the browser's `localStorage`,
 * modelled as a map from key to string. Network replies are passed in.
 */
module AppContext {
  import opened Wrappers
  import opened JsStrings
  import opened ClientTypes

  const TokenKey: string := "token"
  const UserKey: string := "ebook_user"
  const HistoryLimit: nat := 10
  const UploadPlaceholder: string := "https://via.placeholder.com/128x192.png?text=No+Cover"

  // ---------------------------------------------------------------------------
  // The recently-viewed history

  /** `prev.filter(b => b.id !== id)`. */
  function WithoutId(s: seq<ClientBook>, id: string): (r: seq<ClientBook>)
    ensures forall b :: b in r <==> b in s && b.id != id
    ensures |r| <= |s|
  {
    if s == [] then []
    else (if s[0].id == id then [] else [s[0]]) + WithoutId(s[1..], id)
  }

  /** `a` is `b` with some entries left out and the rest in their order. */
  predicate IsSubsequence<T(==)>(a: seq<T>, b: seq<T>)
    decreases |b|
  {
    a == [] || (b != [] && ((a[0] == b[0] && IsSubsequence(a[1..], b[1..])) || IsSubsequence(a, b[1..])))
  }

  /** The filter keeps the other entries in their order. */
  lemma {:induction false} WithoutIdSubsequence(s: seq<ClientBook>, id: string)
    ensures IsSubsequence(WithoutId(s, id), s)
  {
    if s != [] {
      WithoutIdSubsequence(s[1..], id);
      if s[0].id != id {
        assert WithoutId(s, id) == [s[0]] + WithoutId(s[1..], id);
        assert WithoutId(s, id)[1..] == WithoutId(s[1..], id);
      } else {
        assert WithoutId(s, id) == WithoutId(s[1..], id);
      }
    }
  }

  lemma {:induction false} WithoutIdDistinct(s: seq<ClientBook>, id: string)
    requires DistinctIds(s)
    ensures DistinctIds(WithoutId(s, id))
  {
    if s != [] {
      WithoutIdDistinct(s[1..], id);
      var rest := WithoutId(s[1..], id);
      if s[0].id != id {
        forall j | 0 <= j < |rest| ensures rest[j].id != s[0].id {
          assert rest[j] in s[1..];
        }
        assert WithoutId(s, id) == [s[0]] + rest;
      }
    }
  }

  lemma {:induction false} WithoutIdAbsent(s: seq<ClientBook>, id: string)
    requires forall b :: b in s ==> b.id != id
    ensures WithoutId(s, id) == s
  {
    if s != [] {
      WithoutIdAbsent(s[1..], id);
      assert [s[0]] + s[1..] == s;
    }
  }

  /** `addToHistory`'s updater: drop any entry with the book's id, put the book first, keep
      at most ten. */
  function Touch(prev: seq<ClientBook>, book: ClientBook): seq<ClientBook> {
    Take([book] + WithoutId(prev, book.id), HistoryLimit)
  }

  /** The book comes first, at most ten entries remain, and the others are the filtered old
      entries in their old order, cut only at the tail. */
  lemma TouchShape(prev: seq<ClientBook>, book: ClientBook)
    ensures var r := Touch(prev, book);
      && |r| >= 1 && r[0] == book
      && |r| <= HistoryLimit
      && r[1..] == Take(WithoutId(prev, book.id), HistoryLimit - 1)
      && IsSubsequence(WithoutId(prev, book.id), prev)
  {
    var w := WithoutId(prev, book.id);
    if 1 + |w| > HistoryLimit {
      assert ([book] + w)[..HistoryLimit][1..] == w[..HistoryLimit - 1];
    }
    WithoutIdSubsequence(prev, book.id);
  }

  /** Exactly one entry carries the book's id: the first. */
  lemma TouchSingleEntry(prev: seq<ClientBook>, book: ClientBook)
    ensures forall i :: 0 <= i < |Touch(prev, book)| ==> (Touch(prev, book)[i].id == book.id <==> i == 0)
  {
    TouchShape(prev, book);
    var r := Touch(prev, book);
    var w := WithoutId(prev, book.id);
    forall i | 0 < i < |r| ensures r[i].id != book.id {
      assert r[i] == r[1..][i - 1];
      assert r[i] in w;
    }
  }

  /** Ids distinct before are distinct after. */
  lemma TouchKeepsDistinct(prev: seq<ClientBook>, book: ClientBook)
    requires DistinctIds(prev)
    ensures DistinctIds(Touch(prev, book))
  {
    TouchShape(prev, book);
    TouchSingleEntry(prev, book);
    WithoutIdDistinct(prev, book.id);
    var r := Touch(prev, book);
    var w := WithoutId(prev, book.id);
    forall i, j | 0 < i < j < |r| ensures r[i].id != r[j].id {
      assert r[i] == w[i - 1] && r[j] == w[j - 1];
    }
  }

  /** Viewing the same book twice in a row leaves the history as viewing it once. */
  lemma TouchIdempotent(prev: seq<ClientBook>, book: ClientBook)
    ensures Touch(Touch(prev, book), book) == Touch(prev, book)
  {
    TouchShape(prev, book);
    var r := Touch(prev, book);
    var tail := r[1..];
    assert forall b :: b in tail ==> b in WithoutId(prev, book.id);
    WithoutIdAbsent(tail, book.id);
    assert r == [book] + tail;
    assert WithoutId(r, book.id) == WithoutId(tail, book.id);
  }

  // ---------------------------------------------------------------------------
  // Server records and storage

  /** A book as `GET /api/books` sends it. */
  datatype ServerBook = ServerBook(oid: string, title: string, author: string, description: Option<string>,
                                   coverImage: Option<string>, fileUrl: string)

  /** The `data.map(...)` of `fetchMyBooks`: one client book per server record. */
  function FromServer(b: ServerBook): ClientBook {
    ClientBook(
      id := b.oid,
      title := b.title,
      authors := [b.author],
      description := b.description,
      thumbnail := OrElse(b.coverImage, UploadPlaceholder),
      pdfUrl := Some(b.fileUrl),
      previewLink := None,
      pageCount := None,
      publishedDate := None,
      isUploaded := Some(true))
  }

  function FromServerAll(data: seq<ServerBook>): (books: seq<ClientBook>)
    ensures |books| == |data|
    ensures forall i :: 0 <= i < |data| ==> books[i] == FromServer(data[i])
  {
    if data == [] then [] else [FromServer(data[0])] + FromServerAll(data[1..])
  }

  /** What a mapped record carries: its single author as the author list, its file path as the
      PDF link, its cover or the placeholder as thumbnail, and the uploaded mark. */
  lemma FromServerFields(b: ServerBook)
    ensures var c := FromServer(b);
      && c.id == b.oid && c.title == b.title && c.authors == [b.author] && c.description == b.description
      && c.pdfUrl == Some(b.fileUrl) && c.isUploaded == Some(true)
      && (Truthy(b.coverImage) ==> c.thumbnail == b.coverImage.value)
      && (!Truthy(b.coverImage) ==> c.thumbnail == UploadPlaceholder)
      && c.previewLink.None? && c.pageCount.None? && c.publishedDate.None?
  {
  }

  /** `localStorage.getItem(key)`. */
  function GetItem(storage: map<string, string>, key: string): Option<string> {
    if key in storage then Some(storage[key]) else None
  }

  /** The startup effect: signed in, with the parsed stored user, when both the token and the
      stored user are present and non-empty; otherwise no change. */
  function RestoredAuth(storage: map<string, string>, parse: string -> ClientUser): Option<AuthState> {
    if Truthy(GetItem(storage, TokenKey)) && Truthy(GetItem(storage, UserKey))
    then Some(AuthState(Some(parse(storage[UserKey])), true))
    else None
  }

  lemma RestoreNeedsBothKeys(storage: map<string, string>, parse: string -> ClientUser)
    ensures RestoredAuth(storage, parse).Some? <==>
      TokenKey in storage && storage[TokenKey] != "" && UserKey in storage && storage[UserKey] != ""
    ensures RestoredAuth(storage, parse).Some? ==> RestoredAuth(storage, parse).value.isAuthenticated
  {
  }

  /** The user JSON the server sends with a token. */
  datatype ServerUser = ServerUser(oid: string, name: string, email: string)

  /** `{ ...data.user, id: data.user._id }`. */
  function ToClientUser(u: ServerUser): ClientUser {
    ClientUser(u.oid, u.name, u.email)
  }

  /** The storage after a successful login or registration. */
  function WithSession(storage: map<string, string>, token: string, user: ClientUser,
                       stringify: ClientUser -> string): map<string, string> {
    storage[TokenKey := token][UserKey := stringify(user)]
  }

  /** The storage after logout. */
  function WithoutSession(storage: map<string, string>): map<string, string> {
    storage - {TokenKey, UserKey}
  }

  /** A session written at sign-in is restored after a reload, provided the token is not empty
      and parsing undoes stringifying. */
  lemma SessionSurvivesReload(storage: map<string, string>, token: string, user: ClientUser,
                              stringify: ClientUser -> string, parse: string -> ClientUser)
    requires token != "" && stringify(user) != "" && parse(stringify(user)) == user
    ensures RestoredAuth(WithSession(storage, token, user, stringify), parse) == Some(AuthState(Some(user), true))
  {
  }

  /** After logout both keys are gone, a reload stays signed out, and other keys are kept. */
  lemma LogoutSurvivesReload(storage: map<string, string>, parse: string -> ClientUser)
    ensures TokenKey !in WithoutSession(storage) && UserKey !in WithoutSession(storage)
    ensures RestoredAuth(WithoutSession(storage), parse).None?
    ensures forall k :: k in storage && k != TokenKey && k != UserKey ==>
      k in WithoutSession(storage) && WithoutSession(storage)[k] == storage[k]
  {
  }

  /** The reply of `/api/auth/login` or `/api/auth/register` as the client reads it. */
  datatype AuthResponse = AuthOk(user: ServerUser, token: string) | AuthFailed(errorBody: map<string, string>)

  /** What `fetch('/api/books')` yields: an OK reply with records, a non-OK reply, or a failure. */
  datatype FetchResponse = FetchOk(data: seq<ServerBook>) | FetchNotOk | FetchFailed

  /** The provider's state. */
  class App {
    var auth: AuthState
    var myBooks: seq<ClientBook>
    var recentlyViewed: seq<ClientBook>
    var storage: map<string, string>

    /** The history has distinct ids and at most ten entries. */
    ghost predicate Valid()
      reads this
    {
      DistinctIds(recentlyViewed) && |recentlyViewed| <= HistoryLimit
    }

    /** The provider mounting over the browser's current storage: signed out, no books, the
        featured books as history. */
    constructor (storage: map<string, string>)
      ensures Valid()
      ensures auth == SignedOut && myBooks == [] && recentlyViewed == FeaturedBooks
      ensures this.storage == storage
    {
      auth := SignedOut;
      myBooks := [];
      recentlyViewed := FeaturedBooks;
      this.storage := storage;
    }

    /** The startup effect: signed in only when both keys are present and non-empty. */
    method RestoreSession(parse: string -> ClientUser)
      requires Valid()
      modifies this`auth
      ensures Valid()
      ensures auth == RestoredAuth(storage, parse).GetOr(old(auth))
    {
      var token := GetItem(storage, TokenKey);
      var storedUser := GetItem(storage, UserKey);
      if Truthy(token) && Truthy(storedUser) {
        auth := AuthState(Some(parse(storedUser.value)), true);
      }
    }

    /** `login`: on an OK reply the token and user are stored and the user is signed in; on a
        refusal it throws `error.error || 'Login failed'` and changes nothing. */
    method Login(response: AuthResponse, stringify: ClientUser -> string) returns (thrown: Option<string>)
      requires Valid()
      modifies this`auth, this`storage
      ensures Valid()
      ensures response.AuthOk? ==>
        && thrown.None?
        && storage == WithSession(old(storage), response.token, ToClientUser(response.user), stringify)
        && auth == AuthState(Some(ToClientUser(response.user)), true)
      ensures response.AuthFailed? ==>
        && thrown == Some(OrElse(GetItem(response.errorBody, "error"), "Login failed"))
        && storage == old(storage) && auth == old(auth)
    {
      if response.AuthFailed? {
        thrown := Some(OrElse(GetItem(response.errorBody, "error"), "Login failed"));
        return;
      }
      StartSession(response.user, response.token, stringify);
      thrown := None;
    }

    /** `register`: as `login`, but a refusal throws `error.message || 'Registration failed'`. */
    method Register(response: AuthResponse, stringify: ClientUser -> string) returns (thrown: Option<string>)
      requires Valid()
      modifies this`auth, this`storage
      ensures Valid()
      ensures response.AuthOk? ==>
        && thrown.None?
        && storage == WithSession(old(storage), response.token, ToClientUser(response.user), stringify)
        && auth == AuthState(Some(ToClientUser(response.user)), true)
      ensures response.AuthFailed? ==>
        && thrown == Some(OrElse(GetItem(response.errorBody, "message"), "Registration failed"))
        && storage == old(storage) && auth == old(auth)
    {
      if response.AuthFailed? {
        thrown := Some(OrElse(GetItem(response.errorBody, "message"), "Registration failed"));
        return;
      }
      StartSession(response.user, response.token, stringify);
      thrown := None;
    }

    method StartSession(serverUser: ServerUser, token: string, stringify: ClientUser -> string)
      requires Valid()
      modifies this`auth, this`storage
      ensures Valid()
      ensures storage == WithSession(old(storage), token, ToClientUser(serverUser), stringify)
      ensures auth == AuthState(Some(ToClientUser(serverUser)), true)
    {
      var user := ToClientUser(serverUser);
      storage := storage[TokenKey := token];
      storage := storage[UserKey := stringify(user)];
      auth := AuthState(Some(user), true);
    }

    /** `logout`: signed out, both keys removed, no books; the history is kept. */
    method Logout()
      requires Valid()
      modifies this`auth, this`storage, this`myBooks
      ensures Valid()
      ensures auth == SignedOut
      ensures storage == WithoutSession(old(storage))
      ensures myBooks == []
    {
      auth := SignedOut;
      storage := storage - {TokenKey};
      storage := storage - {UserKey};
      myBooks := [];
    }

    /** `addBook`: the book goes in front of the user's books. */
    method AddBook(book: ClientBook)
      requires Valid()
      modifies this`myBooks
      ensures Valid()
      ensures myBooks == [book] + old(myBooks)
    {
      myBooks := [book] + myBooks;
    }

    /** `addToHistory`. */
    method AddToHistory(book: ClientBook)
      requires Valid()
      modifies this`recentlyViewed
      ensures Valid()
      ensures recentlyViewed == Touch(old(recentlyViewed), book)
    {
      TouchKeepsDistinct(recentlyViewed, book);
      TouchShape(recentlyViewed, book);
      recentlyViewed := Touch(recentlyViewed, book);
    }

    /** `fetchMyBooks`: with no token nothing is requested; otherwise the request carries
        "Bearer <token>", and only an OK reply replaces the books with the mapped records. */
    method FetchMyBooks(response: FetchResponse) returns (authorization: Option<string>)
      requires Valid()
      modifies this`myBooks
      ensures Valid()
      ensures !Truthy(GetItem(storage, TokenKey)) ==> authorization.None? && myBooks == old(myBooks)
      ensures Truthy(GetItem(storage, TokenKey)) ==> authorization == Some("Bearer " + storage[TokenKey])
      ensures Truthy(GetItem(storage, TokenKey)) && response.FetchOk? ==> myBooks == FromServerAll(response.data)
      ensures !response.FetchOk? ==> myBooks == old(myBooks)
    {
      var token := GetItem(storage, TokenKey);
      if !Truthy(token) {
        authorization := None;
        return;
      }
      authorization := Some("Bearer " + token.value);
      if response.FetchOk? {
        myBooks := FromServerAll(response.data);
      }
    }
  }
}
