# rest-server book store, modelled in Dafny

The service keeps an in-memory list of book records (`id`, `name`, `author`)
and exposes it over HTTP: `GET /book/{id}` reads one book, `POST`, `PUT` and
`DELETE /book/` create, replace and remove one, and `/books/` lists them all.
This project models the store and the decisions its handlers make.

- `wrappers.dfy` (module `Wrappers`): `Option`, standing for Go's nil-able
  `*Book` and `error` results.
- `books.dfy` (module `Books`): the `Book` record, the two store errors and
  their texts, and the meaning of each store operation as a function from
  the old list to the new one (`Find`, `Added`, `Updated`, `Deleted`, and
  `AddError`/`MissingError` for the error result). The lemmas here are about
  those functions: lookup after each mutation, the unique-id invariant, and
  delete undoing add. `IndexOf` is the front-to-back scan that every store
  method does.
- `store.dfy` (module `Store`): the `BookStore` object. Its `books` field is a
  `seq<Book>` that the mutators reassign. Each method loops over the list as
  the Go method does. Its postcondition says what the method returns and what
  the new list is, in terms of the `Books` functions. Each method also keeps
  the invariant `Valid()` (ids pairwise distinct) whenever it held before. No
  method requires the invariant, because the Go methods do not rely on it.
- `handlers.dfy` (module `Handlers`): the id taken from the path by
  `strings.Replace(path, "/book/", "", 1)`, and the status code and envelope
  `{Message, Error}` of each handler. It also holds lemmas about request
  sequences: create, read, update, read, delete, read; listing after two
  adds; and a duplicate post.

Two quirks of the Go code that the model keeps:
- The add handler's success text says "updated is SUCCESS!", like the update
  handler's. The model keeps that text.
- A "not found" answers 404 on GET but 400 on PUT and DELETE. The model keeps
  those codes.

## Model

| member | source | states |
|---|---|---|
| `Books.IndexOf` | main.go:261-269 | the scan yields the first position holding the id, and yields nothing exactly when no book has that id |
| `Books.Find` | main.go:261-283 | the lookup returns a book exactly when some stored book has the id; the book returned has that id and no earlier book has it |
| `Books.IndexOfFirst` | main.go:262-265 | a position holding the id with no earlier match is the one the scan stops at |
| `Books.FindStored` | main.go:261-269 | when ids are distinct, looking up any stored book's id returns that book |
| `Books.Message` | main.go:288-316 | each error's text starts "Book with Id:" followed by the id; the rest of the text is fixed per kind (see `MessageParts`, `MessageInjective`) |
| `Books.AddError` | main.go:286-290 | adding fails exactly when a lookup of the id would find a book, and the error is the already-present error for that id |
| `Books.Added` | main.go:292 | the list after an add: the old list is kept as a prefix, the length grows by one exactly when the id was new, and the id is stored afterwards (lookups afterwards: `AddThenFind`) |
| `Books.MissingError` | main.go:305-316 | update and delete fail exactly when a lookup of the id finds nothing, and the error is the not-found error for that id |
| `Books.Updated` | main.go:298-301 | the list after an update: same length, every position keeps its id and holds either its old book or the new one, and the new book is stored exactly when its id was present (which entry: `UpdateShape`, `UpdateThenFind`) |
| `Books.Deleted` | main.go:309-312 | the list after a delete: one entry shorter exactly when the id was present, and it holds no book the old list did not (which entry: `DeleteShape`, `DeleteThenFind`) |
| `Books.AddThenFind` | main.go:285-294 | after a successful add the lookup of the new id returns the new book, and lookups of every other id are unchanged |
| `Books.AddKeepsUnique` | main.go:285-294 | adding preserves pairwise-distinct ids |
| `Books.AddTwice` | main.go:285-290 | a second add of the same id is rejected as already present, and the list keeps the length the first add left |
| `Books.UpdateShape` | main.go:297-306 | updating a missing id is an error and changes nothing; otherwise only the first entry with the id is replaced by the new book, and the length and all other positions are unchanged |
| `Books.UpdateThenFind` | main.go:297-303 | after an update the id finds the new book, and every other id finds what it found before |
| `Books.UpdateKeepsUnique` | main.go:297-303 | updating preserves pairwise-distinct ids, because the replacement has the same id |
| `Books.UpdateIdempotent` | main.go:297-303 | updating twice with the same book gives the same list as updating once |
| `Books.DeleteShape` | main.go:308-317 | deleting a missing id is an error and changes nothing; otherwise exactly the first entry with the id is cut out (`old[..i] + old[i+1..]`), the length drops by one, and the removed book is the one the lookup found |
| `Books.DeleteThenFind` | main.go:308-313 | when ids are distinct, the lookup of the deleted id finds nothing afterwards |
| `Books.DeleteKeepsUnique` | main.go:308-313 | deleting preserves pairwise-distinct ids |
| `Books.DeleteUndoesAdd` | main.go:285-313 | deleting the id of a book just added gives back the list it was added to |
| `Books.MessageParts` | main.go:288-316 | the error text "Book with Id:<id> is isset!" / "Book with Id:<id> not found!" determines the kind of error and contains the id |
| `Books.MessageInjective` | main.go:288-316 | two errors with the same text are the same error for the same id |
| `Store.BookStore.constructor` | main.go:31-33 | the store starts empty, and the invariant holds |
| `Store.BookStore.FindBookById` | main.go:261-269 | returns the first book with the id, or none exactly when no stored book has it |
| `Store.BookStore.GetBooks` | main.go:271-273 | returns the stored list itself, in store order |
| `Store.BookStore.GetBook` | main.go:275-283 | same result as FindBookById |
| `Store.BookStore.AddBook` | main.go:285-295 | when the id is present: returns the already-present error, list unchanged; otherwise returns no error and the list becomes old + [book]; keeps distinct ids |
| `Store.BookStore.UpdateBook` | main.go:297-306 | when the id is present: no error, and the first entry with that id is overwritten in place; otherwise a not-found error and the list unchanged; keeps distinct ids |
| `Store.BookStore.DeleteBook` | main.go:308-317 | when the id is present: no error, the first entry with that id is removed and the rest shift left; otherwise a not-found error and the list unchanged; keeps distinct ids |
| `Handlers.FirstMatch` | main.go:120 | finds the leftmost occurrence of the pattern, or reports that there is none anywhere |
| `Handlers.BookIdOfBookPath` | main.go:120 | for a path "/book/" + id, the extracted id is exactly id |
| `Handlers.ReplaceFirst` | main.go:120 | with no occurrence of the pattern the string is unchanged; otherwise the leftmost occurrence is replaced and everything before and after it is kept |
| `Handlers.BookIdOf` | main.go:120 | the path is returned unchanged exactly when "/book/" does not occur in it; otherwise it is exactly six characters shorter |
| `Handlers.HandleGetBook` | main.go:116-134 | 200 with the book exactly when some book has the id from the path, and the book returned is the first stored book with that id; otherwise 404 with "Book with Id:<id> not found!" and no message |
| `Handlers.HandleAddBook` | main.go:136-175 | an undecodable body gives 400; an id already stored gives 409 with the already-present text; otherwise 200 with "Book with id:<id> updated is SUCCESS!" and the book appended; a bad body answers with the decoder's error text; on every failure the store is unchanged |
| `Handlers.HandleUpdateBook` | main.go:177-216 | 200 exactly when the body decodes and the id is stored, and then only the first entry with that id is replaced (`Updated`), so the id finds the new book and the length is kept, and the message is "Book with id:<id> updated is SUCCESS!"; otherwise 400 with the store unchanged, with the decoder's error text for a bad body and the not-found text for a decoded one |
| `Handlers.HandleDeleteBook` | main.go:218-257 | 200 exactly when the body decodes and the id is stored, and then exactly the first entry with that id is removed and the rest shift left (`Deleted`), and the message is "Book with id:<id> deleted is SUCCESS!"; otherwise 400 with the store unchanged, with the decoder's error text for a bad body and the not-found text for a decoded one |
| `Handlers.HandleBooks` | main.go:98-112 | always 200, with the whole list in store order |
| `Handlers.HandleBook` | main.go:80-96 | GET, POST, PUT and DELETE each go to their own handler, and any other method gets no reply; only POST, PUT and DELETE can change the store, and a failed request never does |
| `Handlers.CrudRoundTrip` | main.go:116-257 | starting from an empty store, POST, GET, PUT, GET, DELETE and GET on one id all give 200 except the last GET, which gives 404; each GET sees the current version of the book |
| `Handlers.ListAfterTwoAdds` | main.go:98-112 | after two successful posts with different ids, the list holds exactly those two books in the order they were posted |
| `Handlers.DuplicatePost` | main.go:155-165 | posting an id that was just posted gives 409 with "Book with Id:<id> is isset!", and the store is left as the first post left it |

## Left out

- Server start-up, routing set-up, timeouts and the request-logging wrapper (main.go:37-55, 70-76): these are HTTP plumbing with no store logic.
- JSON decoding and encoding (main.go:141-153, 66-67, 132-133): the decoder's verdict comes in as `Handlers.Body` (`Malformed(reason)` or `Decoded(book)`), and the envelope is the `Handlers.Response` value before it is serialised.
- The greeting handler (main.go:57-68): it only formats a string.
- Handlers.HandleBooks: does not model the extra body written on GET. On GET, `handlerBooks` first calls `handleGetBook` with the request path (e.g. "/books/"), which it looks up as an id, and that writes a second, usually 404-style, envelope before the list (main.go:102-104). This is an HTTP-layer quirk of the Go code.
- Handlers.HandleBook: for a method other than GET, POST, PUT or DELETE the Go handler writes nothing, and net/http then sends an empty 200. The model returns `None` for that case.
- Concurrency: the process-wide store (main.go:31-33) is changed by concurrent requests without a lock. The model assumes one request at a time.
- Go aliasing: `GetBooks` hands out the backing slice, `FindBookById` returns a pointer to a copy, and `DeleteBook`'s `append` reuses the array. The model works on `seq` values, so sharing between a returned slice and the store is not captured.
- Handlers: the handlers are pure functions of the list. They are not methods calling `Store.BookStore`. `Store.BookStore`'s postconditions show that its methods compute the same lists (`Added`, `Updated`, `Deleted`, `Find`).
