/**
  The decisions the HTTP handlers of /book/ and /books/ make: which id a
  request names, which status code answers it, what the response envelope
  carries and what the store holds afterwards. The store is passed in and
  returned as a value; Store.BookStore is proved to compute the same lists.
 */
module Handlers {
  import opened Wrappers
  import opened Books

  const StatusOK: int := 200
  const StatusBadRequest: int := 400
  const StatusNotFound: int := 404
  const StatusConflict: int := 409

  /** The route prefix of the single-book handler. */
  const BookPrefix: string := "/book/"

  /** What the envelope's Message field holds. */
  datatype Payload = NoMessage | Text(text: string) | OneBook(book: Book) | BookList(list: seq<Book>)

  /** The JSON envelope `{Message, Error}`; an empty `error` means no error. */
  datatype Response = Response(message: Payload, error: string)

  datatype Reply = Reply(status: int, response: Response)

  /** A handler's reply together with the store it leaves behind. */
  datatype Exchange = Exchange(reply: Reply, books: seq<Book>)

  /** The request body after JSON decoding; the decoder itself is not modelled. */
  datatype Body = Malformed(reason: string) | Decoded(book: Book)

  datatype HttpMethod = Get | Post | Put | Delete | OtherMethod(name: string)

  // ---------------------------------------------------------------------
  // Id extraction: strings.Replace(path, "/book/", "", 1)

  /** `pat` occurs in `s` starting at position `k`. */
  predicate OccursAt(s: string, pat: string, k: int)
  {
    0 <= k && k + |pat| <= |s| && s[k..k + |pat|] == pat
  }

  /** Position of the leftmost occurrence of `pat` in `s` (what strings.Index finds). */
  function FirstMatch(s: string, pat: string): (r: Option<nat>)
    ensures r.Some? ==> OccursAt(s, pat, r.value)
    ensures r.Some? ==> forall j :: 0 <= j < r.value ==> !OccursAt(s, pat, j)
    ensures r.None? ==> forall j :: !OccursAt(s, pat, j)
    decreases |s|
  {
    if |pat| <= |s| && s[..|pat|] == pat then Some(0)
    else if |s| == 0 then None
    else
      assert !OccursAt(s, pat, 0) by {
        if |pat| <= |s| {
          assert s[0..|pat|] == s[..|pat|];
        }
      }
      assert forall j :: OccursAt(s, pat, j) <==> OccursAt(s[1..], pat, j - 1) by {
        forall j ensures OccursAt(s, pat, j) <==> OccursAt(s[1..], pat, j - 1) {
          if 1 <= j && j + |pat| <= |s| {
            assert s[j..j + |pat|] == s[1..][j - 1..j - 1 + |pat|];
          }
        }
      }
      match FirstMatch(s[1..], pat)
      case None => None
      case Some(k) => Some(k + 1)
  }

  /** `s` with its leftmost occurrence of `pat` replaced by `rep`; unchanged when there is none. */
  function ReplaceFirst(s: string, pat: string, rep: string): (r: string)
    ensures (forall j :: !OccursAt(s, pat, j)) ==> r == s
    ensures forall k :: OccursAt(s, pat, k) && (forall j :: 0 <= j < k ==> !OccursAt(s, pat, j)) ==>
      r == s[..k] + rep + s[k + |pat|..]
  {
    match FirstMatch(s, pat)
    case None => s
    case Some(k) => s[..k] + rep + s[k + |pat|..]
  }

  /** The id a GET /book/... request names. */
  function BookIdOf(path: string): (r: string)
    ensures r == path || |r| == |path| - |BookPrefix|
    ensures (forall j :: !OccursAt(path, BookPrefix, j)) <==> r == path
  {
    ReplaceFirst(path, BookPrefix, "")
  }

  /** For every path the router sends to the single-book handler, the id is the rest of the path. */
  lemma BookIdOfBookPath(id: string)
    ensures BookIdOf(BookPrefix + id) == id
  {
  }

  // ---------------------------------------------------------------------
  // Handlers

  /** GET /book/{id}: the book with that id, or 404 with the not-found text. */
  function HandleGetBook(books: seq<Book>, path: string): (r: Reply)
    ensures r.status == StatusOK <==> HasId(books, BookIdOf(path))
    ensures r.status == StatusOK ==>
      r.response.error == "" && r.response.message.OneBook? &&
      r.response.message.book.id == BookIdOf(path) && r.response.message.book in books
    ensures r.status == StatusOK ==> r.response.message == OneBook(Find(books, BookIdOf(path)).value)
    ensures r.status != StatusOK ==>
      r.status == StatusNotFound && r.response == Response(NoMessage, Message(NotFound(BookIdOf(path))))
  {
    var id := BookIdOf(path);
    match Find(books, id)
    case None => Reply(StatusNotFound, Response(NoMessage, Message(NotFound(id))))
    case Some(b) => Reply(StatusOK, Response(OneBook(b), ""))
  }

  /** A failed reply: no message, and `error` in the envelope's Error field. */
  function Failure(status: int, error: string): Reply
  {
    Reply(status, Response(NoMessage, error))
  }

  /** POST /book/: 400 on a bad body, 409 on a taken id, otherwise 200 and the book appended. */
  function HandleAddBook(books: seq<Book>, body: Body): (r: Exchange)
    ensures r.reply.status == StatusBadRequest <==> body.Malformed?
    ensures r.reply.status == StatusConflict <==> body.Decoded? && HasId(books, body.book.id)
    ensures r.reply.status == StatusOK <==> body.Decoded? && !HasId(books, body.book.id)
    ensures r.reply.status == StatusOK ==> r.books == books + [body.book] && r.reply.response.error == ""
    ensures r.reply.status != StatusOK ==> r.books == books && r.reply.response.message == NoMessage
    ensures r.reply.status == StatusConflict ==> r.reply.response.error == Message(AlreadyExists(body.book.id))
    ensures r.reply.status == StatusOK ==>
      r.reply.response.message == Text("Book with id:" + body.book.id + " updated is SUCCESS!")
    ensures body.Malformed? ==> r.reply.response.error == body.reason
  {
    match body
    case Malformed(reason) => Exchange(Failure(StatusBadRequest, reason), books)
    case Decoded(b) =>
      match AddError(books, b)
      case Some(e) => Exchange(Failure(StatusConflict, Message(e)), books)
      case None =>
        // The Go handler reuses the update handler's confirmation text here.
        Exchange(Reply(StatusOK, Response(Text("Book with id:" + b.id + " updated is SUCCESS!"), "")), Added(books, b))
  }

  /** PUT /book/: 400 on a bad body or a missing id, otherwise 200 and the first match replaced. */
  function HandleUpdateBook(books: seq<Book>, body: Body): (r: Exchange)
    ensures r.reply.status == StatusOK <==> body.Decoded? && HasId(books, body.book.id)
    ensures r.reply.status != StatusOK ==> r.reply.status == StatusBadRequest && r.books == books
    ensures r.reply.status == StatusOK ==>
      r.reply.response.error == "" && |r.books| == |books| &&
      Find(r.books, body.book.id) == Some(body.book)
    ensures r.reply.status == StatusOK ==> r.books == Updated(books, body.book)
    ensures r.reply.status == StatusOK ==>
      r.reply.response.message == Text("Book with id:" + body.book.id + " updated is SUCCESS!")
    ensures body.Malformed? ==> r.reply.response.error == body.reason
    ensures body.Decoded? && r.reply.status != StatusOK ==>
      r.reply.response.error == Message(NotFound(body.book.id))
  {
    match body
    case Malformed(reason) => Exchange(Failure(StatusBadRequest, reason), books)
    case Decoded(b) =>
      match MissingError(books, b.id)
      case Some(e) => Exchange(Failure(StatusBadRequest, Message(e)), books)
      case None =>
        UpdateThenFind(books, b, b.id);
        Exchange(Reply(StatusOK, Response(Text("Book with id:" + b.id + " updated is SUCCESS!"), "")), Updated(books, b))
  }

  /** DELETE /book/: 400 on a bad body or a missing id, otherwise 200 and the first match removed. */
  function HandleDeleteBook(books: seq<Book>, body: Body): (r: Exchange)
    ensures r.reply.status == StatusOK <==> body.Decoded? && HasId(books, body.book.id)
    ensures r.reply.status != StatusOK ==> r.reply.status == StatusBadRequest && r.books == books
    ensures r.reply.status == StatusOK ==> r.reply.response.error == "" && |r.books| == |books| - 1
    ensures r.reply.status == StatusOK ==>
      exists i :: 0 <= i < |books| && books[i].id == body.book.id && NoIdBefore(books, body.book.id, i) &&
        r.books == books[..i] + books[i + 1..]
    ensures r.reply.status == StatusOK ==> r.books == Deleted(books, body.book.id)
    ensures r.reply.status == StatusOK ==>
      r.reply.response.message == Text("Book with id:" + body.book.id + " deleted is SUCCESS!")
    ensures body.Malformed? ==> r.reply.response.error == body.reason
    ensures body.Decoded? && r.reply.status != StatusOK ==>
      r.reply.response.error == Message(NotFound(body.book.id))
  {
    match body
    case Malformed(reason) => Exchange(Failure(StatusBadRequest, reason), books)
    case Decoded(b) =>
      match MissingError(books, b.id)
      case Some(e) => Exchange(Failure(StatusBadRequest, Message(e)), books)
      case None =>
        DeleteShape(books, b.id);
        Exchange(Reply(StatusOK, Response(Text("Book with id:" + b.id + " deleted is SUCCESS!"), "")), Deleted(books, b.id))
  }

  /** /books/: always 200 with the whole list in store order, whatever the method. */
  function HandleBooks(books: seq<Book>): (r: Reply)
    ensures r.status == StatusOK && r.response.error == ""
    ensures r.response.message.BookList? && r.response.message.list == books
  {
    Reply(StatusOK, Response(BookList(books), ""))
  }

  /** /book/: dispatch on the method; any other method writes no reply and leaves the store alone. */
  function HandleBook(books: seq<Book>, verb: HttpMethod, path: string, body: Body): (r: Option<Exchange>)
    ensures r.None? <==> verb.OtherMethod?
    ensures verb == Get ==> r == Some(Exchange(HandleGetBook(books, path), books))
    ensures verb == Post ==> r == Some(HandleAddBook(books, body))
    ensures verb == Put ==> r == Some(HandleUpdateBook(books, body))
    ensures verb == Delete ==> r == Some(HandleDeleteBook(books, body))
    ensures r.Some? && r.value.books != books ==> (verb == Post || verb == Put || verb == Delete)
    ensures r.Some? && r.value.reply.status != StatusOK ==> r.value.books == books
  {
    match verb
    case Get => Some(Exchange(HandleGetBook(books, path), books))
    case Post => Some(HandleAddBook(books, body))
    case Put => Some(HandleUpdateBook(books, body))
    case Delete => Some(HandleDeleteBook(books, body))
    case OtherMethod(_) => None
  }

  // ---------------------------------------------------------------------
  // Request sequences

  /**
    Create, read, update, read, delete, read on one id, starting from an
    empty store: every step succeeds, the reads see each version, and the
    last read misses with 404.
   */
  lemma CrudRoundTrip(id: string, name: string, author: string, author2: string)
    ensures
      var created := Book(id, name, author);
      var revised := Book(id, name, author2);
      var path := BookPrefix + id;
      var post := HandleAddBook([], Decoded(created));
      var get1 := HandleGetBook(post.books, path);
      var put := HandleUpdateBook(post.books, Decoded(revised));
      var get2 := HandleGetBook(put.books, path);
      var del := HandleDeleteBook(put.books, Decoded(Book(id, "", "")));
      var get3 := HandleGetBook(del.books, path);
      && post.reply.status == StatusOK
      && get1 == Reply(StatusOK, Response(OneBook(created), ""))
      && put.reply.status == StatusOK
      && get2 == Reply(StatusOK, Response(OneBook(revised), ""))
      && del.reply.status == StatusOK && del.books == []
      && get3.status == StatusNotFound
  {
  }

  /** Listing after two successful adds gives exactly those books in the order they were added. */
  lemma ListAfterTwoAdds(b1: Book, b2: Book)
    requires b1.id != b2.id
    ensures
      var first := HandleAddBook([], Decoded(b1));
      var second := HandleAddBook(first.books, Decoded(b2));
      && first.reply.status == StatusOK && second.reply.status == StatusOK
      && HandleBooks(second.books).response.message == BookList([b1, b2])
  {
  }

  /** Posting the same id twice: the second post is a 409 and the store keeps one entry. */
  lemma DuplicatePost(books: seq<Book>, b: Book, c: Book)
    requires c.id == b.id
    ensures
      var first := HandleAddBook(books, Decoded(b));
      var second := HandleAddBook(first.books, Decoded(c));
      && second.reply.status == StatusConflict
      && second.reply.response.error == "Book with Id:" + b.id + " is isset!"
      && second.books == first.books
  {
    AddTwice(books, b, c);
  }
}
