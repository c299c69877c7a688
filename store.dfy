/**
  The store object itself: the ordered list of books that the service keeps
  in memory and changes in place. Every method scans the list from the front
  as the Go code does; its contract ties the result and the new list to the
  value-level functions of module Books, where the lasting properties are proved.
 */
module Store {
  import opened Wrappers
  import opened Books

  class BookStore {
    var books: seq<Book>

    /** The store's invariant: ids are pairwise distinct. */
    ghost predicate Valid()
      reads this
    {
      UniqueIds(books)
    }

    /** The process-wide store starts out empty. */
    constructor ()
      ensures books == [] && Valid()
    {
      books := [];
    }

    /** First book with `id`, or none; the list is only read. */
    method FindBookById(id: string) returns (r: Option<Book>)
      ensures r == Find(books, id)
      ensures r.Some? <==> HasId(books, id)
      ensures r.Some? ==> r.value.id == id && r.value in books
    {
      var i := 0;
      while i < |books|
        invariant 0 <= i <= |books|
        invariant NoIdBefore(books, id, i)
      {
        if books[i].id == id {
          IndexOfFirst(books, id, i);
          return Some(books[i]);
        }
        i := i + 1;
      }
      return None;
    }

    /** The whole list, in store order. */
    method GetBooks() returns (r: seq<Book>)
      ensures r == books
    {
      r := books;
    }

    /** Same lookup as FindBookById (the Go code repeats the scan verbatim). */
    method GetBook(id: string) returns (r: Option<Book>)
      ensures r == Find(books, id)
      ensures r.Some? <==> HasId(books, id)
      ensures r.Some? ==> r.value.id == id && r.value in books
    {
      r := FindBookById(id);
    }

    /** Appends `b` unless its id is already stored, in which case nothing changes. */
    method AddBook(b: Book) returns (err: Option<StoreError>)
      modifies this
      ensures err == AddError(old(books), b)
      ensures err.Some? <==> HasId(old(books), b.id)
      ensures books == if err.Some? then old(books) else old(books) + [b]
      ensures old(Valid()) ==> Valid()
    {
      var i := 0;
      while i < |books|
        invariant 0 <= i <= |books|
        invariant NoIdBefore(books, b.id, i)
      {
        if books[i].id == b.id {
          return Some(AlreadyExists(b.id));
        }
        i := i + 1;
      }
      if Valid() {
        AddKeepsUnique(books, b);
      }
      books := books + [b];
      return None;
    }

    /** Overwrites the first book whose id is `b.id`; a missing id is an error and changes nothing. */
    method UpdateBook(b: Book) returns (err: Option<StoreError>)
      modifies this
      ensures err == MissingError(old(books), b.id)
      ensures err.None? <==> HasId(old(books), b.id)
      ensures books == Updated(old(books), b)
      ensures |books| == |old(books)|
      ensures err.None? ==>
        (exists i :: 0 <= i < |books| && NoIdBefore(old(books), b.id, i) &&
          old(books)[i].id == b.id && books == old(books)[i := b])
      ensures old(Valid()) ==> Valid()
    {
      if Valid() {
        UpdateKeepsUnique(books, b);
      }
      var i := 0;
      while i < |books|
        invariant 0 <= i <= |books|
        invariant NoIdBefore(books, b.id, i)
      {
        if books[i].id == b.id {
          IndexOfFirst(books, b.id, i);
          books := books[i := b];
          return None;
        }
        i := i + 1;
      }
      return Some(NotFound(b.id));
    }

    /** Removes the first book whose id is `id`, shifting the rest left; a missing id is an error and changes nothing. */
    method DeleteBook(id: string) returns (err: Option<StoreError>)
      modifies this
      ensures err == MissingError(old(books), id)
      ensures err.None? <==> HasId(old(books), id)
      ensures books == Deleted(old(books), id)
      ensures err.None? ==>
        |books| == |old(books)| - 1 &&
        (exists i :: 0 <= i < |old(books)| && NoIdBefore(old(books), id, i) &&
          old(books)[i].id == id && books == old(books)[..i] + old(books)[i + 1..])
      ensures err.Some? ==> books == old(books)
      ensures old(Valid()) ==> Valid()
    {
      if Valid() {
        DeleteKeepsUnique(books, id);
      }
      var i := 0;
      while i < |books|
        invariant 0 <= i <= |books|
        invariant NoIdBefore(books, id, i)
      {
        if books[i].id == id {
          IndexOfFirst(books, id, i);
          ghost var before := books;
          books := books[..i] + books[i + 1..];
          assert books == Deleted(before, id);
          assert MissingError(before, id) == None;
          return None;
        }
        i := i + 1;
      }
      return Some(NotFound(id));
    }
  }
}
