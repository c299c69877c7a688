/**
  The book records of the service and the value-level meaning of every
  operation of its in-memory store: a store is an ordered sequence of books,
  and each operation is a function from the old sequence to the new one.
  The class `Store.BookStore` is proved against these functions.
 */
module Books {
  import opened Wrappers

  /** One record of the store; `id` is its key. */
  datatype Book = Book(id: string, name: string, author: string)

  /** The two errors the store's mutators return. */
  datatype StoreError =
    | AlreadyExists(id: string)   // AddBook on an id that is present
    | NotFound(id: string)        // UpdateBook or DeleteBook on an id that is absent

  /** The text of the Go error value for each error. */
  function Message(e: StoreError): (r: string)
    ensures |r| > 13 + |e.id| && r[..13] == "Book with Id:" && r[13..13 + |e.id|] == e.id
  {
    match e
    case AlreadyExists(id) => "Book with Id:" + id + " is isset!"
    case NotFound(id) => "Book with Id:" + id + " not found!"
  }

  /** Some book in `books` carries `id`. */
  predicate HasId(books: seq<Book>, id: string)
  {
    exists j :: 0 <= j < |books| && books[j].id == id
  }

  /** The store's invariant: no two books share an id. */
  predicate UniqueIds(books: seq<Book>)
  {
    forall i, j :: 0 <= i < j < |books| ==> books[i].id != books[j].id
  }

  /** Position of the first book with `id`, scanning from the front. */
  function IndexOf(books: seq<Book>, id: string): (r: Option<nat>)
    ensures r.Some? ==> r.value < |books| && books[r.value].id == id
    ensures r.Some? ==> forall j :: 0 <= j < r.value ==> books[j].id != id
    ensures r.None? <==> !HasId(books, id)
    decreases |books|
  {
    if |books| == 0 then None
    else if books[0].id == id then Some(0)
    else
      match IndexOf(books[1..], id)
      case None => None
      case Some(k) => Some(k + 1)
  }

  /** The book FindBookById and GetBook return: the first one with `id`, or none. */
  function Find(books: seq<Book>, id: string): (r: Option<Book>)
    ensures r.Some? <==> HasId(books, id)
    ensures r.Some? ==> r.value.id == id
    ensures r.Some? ==> exists i :: 0 <= i < |books| && books[i] == r.value && NoIdBefore(books, id, i)
  {
    match IndexOf(books, id)
    case None => None
    case Some(i) => Some(books[i])
  }

  /** No book before position `i` carries `id`. */
  predicate NoIdBefore(books: seq<Book>, id: string, i: int)
    requires i <= |books|
  {
    forall j :: 0 <= j < i ==> books[j].id != id
  }

  /** Error AddBook returns on `books`. */
  function AddError(books: seq<Book>, b: Book): (r: Option<StoreError>)
    ensures r.Some? <==> Find(books, b.id).Some?
    ensures r.Some? ==> r.value == AlreadyExists(b.id)
  {
    if HasId(books, b.id) then Some(AlreadyExists(b.id)) else None
  }

  /** Store after AddBook: appended at the end unless the id is taken. */
  function Added(books: seq<Book>, b: Book): (r: seq<Book>)
    ensures |r| == if HasId(books, b.id) then |books| else |books| + 1
    ensures r[..|books|] == books
    ensures HasId(r, b.id)
  {
    if HasId(books, b.id) then books
    else
      assert (books + [b])[|books|] == b;
      books + [b]
  }

  /** Error UpdateBook and DeleteBook return on `books` for `id`. */
  function MissingError(books: seq<Book>, id: string): (r: Option<StoreError>)
    ensures r.None? <==> Find(books, id).Some?
    ensures r.Some? ==> r.value == NotFound(id)
  {
    if HasId(books, id) then None else Some(NotFound(id))
  }

  /** Store after UpdateBook: the first book with `b.id` replaced by `b`. */
  function Updated(books: seq<Book>, b: Book): (r: seq<Book>)
    ensures |r| == |books|
    ensures forall j :: 0 <= j < |r| ==> r[j].id == books[j].id && (r[j] == books[j] || r[j] == b)
    ensures HasId(books, b.id) <==> b in r
  {
    match IndexOf(books, b.id)
    case None => books
    case Some(i) => books[i := b]
  }

  /** Store after DeleteBook: the first book with `id` cut out, the rest shifted left. */
  function Deleted(books: seq<Book>, id: string): (r: seq<Book>)
    ensures |r| == if HasId(books, id) then |books| - 1 else |books|
    ensures multiset(r) <= multiset(books)
  {
    match IndexOf(books, id)
    case None => books
    case Some(i) =>
      assert books == books[..i] + [books[i]] + books[i + 1..];
      books[..i] + books[i + 1..]
  }

  // ---------------------------------------------------------------------
  // Lookup

  /** A position holding `id` with no earlier `id` is the one the scan stops at. */
  lemma IndexOfFirst(books: seq<Book>, id: string, i: nat)
    requires i < |books| && books[i].id == id && NoIdBefore(books, id, i)
    ensures IndexOf(books, id) == Some(i)
  {
  }

  /** Under the invariant, looking up the id of any stored book finds that very book. */
  lemma FindStored(books: seq<Book>, i: nat)
    requires UniqueIds(books) && i < |books|
    ensures Find(books, books[i].id) == Some(books[i])
  {
  }

  // ---------------------------------------------------------------------
  // AddBook

  /** After a successful add the new book is found under its id and other lookups are unaffected. */
  lemma AddThenFind(books: seq<Book>, b: Book, id: string)
    requires !HasId(books, b.id)
    ensures Find(Added(books, b), b.id) == Some(b)
    ensures id != b.id ==> Find(Added(books, b), id) == Find(books, id)
  {
    var s := books + [b];
    assert NoIdBefore(s, b.id, |books|) by {
      forall j | 0 <= j < |books| ensures s[j].id != b.id {
        assert s[j] == books[j];
      }
    }
    IndexOfFirst(s, b.id, |books|);
    if id != b.id {
      match IndexOf(books, id)
      case None =>
        forall j | 0 <= j < |s| ensures s[j].id != id {
          if j < |books| {
            assert s[j] == books[j];
          }
        }
      case Some(i) =>
        assert NoIdBefore(s, id, i) by {
          forall j | 0 <= j < i ensures s[j].id != id {
            assert s[j] == books[j];
          }
        }
        IndexOfFirst(s, id, i);
    }
  }

  /** Adding keeps ids pairwise distinct. */
  lemma AddKeepsUnique(books: seq<Book>, b: Book)
    requires UniqueIds(books)
    ensures UniqueIds(Added(books, b))
  {
  }

  /** A second add of the same id is rejected and leaves the store as the first add left it. */
  lemma AddTwice(books: seq<Book>, b: Book, c: Book)
    requires c.id == b.id
    ensures AddError(Added(books, b), c) == Some(AlreadyExists(b.id))
    ensures Added(Added(books, b), c) == Added(books, b)
  {
    var s := Added(books, b);
    if !HasId(books, b.id) {
      assert s[|books|].id == c.id;
    }
  }

  // ---------------------------------------------------------------------
  // UpdateBook

  /** A successful update overwrites only the first book with that id; a missing id changes nothing. */
  lemma UpdateShape(books: seq<Book>, b: Book)
    ensures MissingError(books, b.id).Some? <==> Find(books, b.id).None?
    ensures MissingError(books, b.id).Some? ==> Updated(books, b) == books
    ensures |Updated(books, b)| == |books|
    ensures HasId(books, b.id) ==>
      exists i :: 0 <= i < |books| && books[i].id == b.id && NoIdBefore(books, b.id, i) &&
        Updated(books, b)[i] == b &&
        forall j :: 0 <= j < |books| && j != i ==> Updated(books, b)[j] == books[j]
  {
  }

  /** After an update the id finds the new book, and every other id finds what it found before. */
  lemma UpdateThenFind(books: seq<Book>, b: Book, id: string)
    requires HasId(books, b.id)
    ensures Find(Updated(books, b), b.id) == Some(b)
    ensures id != b.id ==> Find(Updated(books, b), id) == Find(books, id)
  {
    var i := IndexOf(books, b.id).value;
    var s := books[i := b];
    assert NoIdBefore(s, b.id, i) by {
      forall j | 0 <= j < i ensures s[j].id != b.id {
        assert s[j] == books[j];
      }
    }
    IndexOfFirst(s, b.id, i);
    if id != b.id {
      match IndexOf(books, id)
      case None =>
        forall j | 0 <= j < |s| ensures s[j].id != id {
          if j != i {
            assert s[j] == books[j];
          }
        }
      case Some(p) =>
        assert p != i;
        assert NoIdBefore(s, id, p) by {
          forall j | 0 <= j < p ensures s[j].id != id {
            if j != i {
              assert s[j] == books[j];
            }
          }
        }
        IndexOfFirst(s, id, p);
    }
  }

  /** Updating keeps ids pairwise distinct, since the replacement carries the same id. */
  lemma UpdateKeepsUnique(books: seq<Book>, b: Book)
    requires UniqueIds(books)
    ensures UniqueIds(Updated(books, b))
  {
  }

  /** Updating with the same book twice is the same as updating once. */
  lemma UpdateIdempotent(books: seq<Book>, b: Book)
    ensures Updated(Updated(books, b), b) == Updated(books, b)
  {
    if HasId(books, b.id) {
      var i := IndexOf(books, b.id).value;
      var s := books[i := b];
      assert NoIdBefore(s, b.id, i) by {
        forall j | 0 <= j < i ensures s[j].id != b.id {
          assert s[j] == books[j];
        }
      }
      IndexOfFirst(s, b.id, i);
    }
  }

  // ---------------------------------------------------------------------
  // DeleteBook

  /** A successful delete removes exactly the first book with the id; a missing id changes nothing. */
  lemma DeleteShape(books: seq<Book>, id: string)
    ensures MissingError(books, id).Some? <==> Find(books, id).None?
    ensures MissingError(books, id).Some? ==> Deleted(books, id) == books
    ensures HasId(books, id) ==>
      |Deleted(books, id)| == |books| - 1 &&
      multiset(Deleted(books, id)) + multiset{Find(books, id).value} == multiset(books) &&
      exists i :: 0 <= i < |books| && books[i].id == id && NoIdBefore(books, id, i) &&
        Deleted(books, id) == books[..i] + books[i + 1..]
  {
    if HasId(books, id) {
      var i := IndexOf(books, id).value;
      assert NoIdBefore(books, id, i);
      assert books == books[..i] + [books[i]] + books[i + 1..];
    }
  }

  /** Under the invariant, the deleted id is no longer found. */
  lemma DeleteThenFind(books: seq<Book>, id: string)
    requires UniqueIds(books)
    ensures Find(Deleted(books, id), id).None?
  {
    if HasId(books, id) {
      var i := IndexOf(books, id).value;
      var s := books[..i] + books[i + 1..];
      forall j | 0 <= j < |s| ensures s[j].id != id {
        if j < i {
          assert s[j] == books[j];
        } else {
          assert s[j] == books[j + 1];
        }
      }
    }
  }

  /** Deleting keeps ids pairwise distinct. */
  lemma DeleteKeepsUnique(books: seq<Book>, id: string)
    requires UniqueIds(books)
    ensures UniqueIds(Deleted(books, id))
  {
  }

  /** Deleting the id of a book just added restores the store it was added to. */
  lemma DeleteUndoesAdd(books: seq<Book>, b: Book)
    requires !HasId(books, b.id)
    ensures Deleted(Added(books, b), b.id) == books
  {
    var s := books + [b];
    assert NoIdBefore(s, b.id, |books|) by {
      forall j | 0 <= j < |books| ensures s[j].id != b.id {
        assert s[j] == books[j];
      }
    }
    IndexOfFirst(s, b.id, |books|);
    assert s[..|books|] == books;
  }

  // ---------------------------------------------------------------------
  // Error texts

  /** The text of an error names its kind (by its second-to-last character) and its id. */
  lemma MessageParts(e: StoreError)
    ensures |Message(e)| >= 23
    ensures Message(e)[|Message(e)| - 2] == 't' ==> e.AlreadyExists? && e.id == Message(e)[13..|Message(e)| - 10]
    ensures Message(e)[|Message(e)| - 2] != 't' ==> e.NotFound? && e.id == Message(e)[13..|Message(e)| - 11]
  {
  }

  /** Distinct errors have distinct texts, so the text tells which error and which id. */
  lemma MessageInjective(e1: StoreError, e2: StoreError)
    requires Message(e1) == Message(e2)
    ensures e1 == e2
  {
    MessageParts(e1);
    MessageParts(e2);
  }
}
