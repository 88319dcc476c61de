/** The library inventory: books that move between "available" and "issued", an ordered
    list of them with first-match search by ISBN and by title, and the issue and return
    rules of the menu. */
module Library {
  import opened Wrappers
  import Text
  import Search

  const Available := "available"
  const Issued := "issued"

  /** What `to_dict()` yields and `load_books` reads back, one JSON object per book. */
  datatype BookRecord = BookRecord(title: string, author: string, isbn: string, status: string)

  class Book {
    var title: string
    var author: string
    var isbn: string
    /** Any string: a loaded book keeps whatever status its record held. */
    var status: string

    /** `Book(title, author, isbn)`: a new book is available. */
    constructor (title: string, author: string, isbn: string)
      ensures this.title == title && this.author == author && this.isbn == isbn
      ensures status == Available && IsAvailable()
    {
      this.title, this.author, this.isbn := title, author, isbn;
      status := Available;
    }

    /** `Book(item["title"], item["author"], item["isbn"], item["status"])`: rebuilding a book
        from its record gives back that record. */
    constructor FromRecord(r: BookRecord)
      ensures ToDict() == r
    {
      title, author, isbn, status := r.title, r.author, r.isbn, r.status;
    }

    method Issue()
      modifies this
      ensures status == Issued && !IsAvailable()
      ensures title == old(title) && author == old(author) && isbn == old(isbn)
    {
      status := Issued;
    }

    method ReturnBook()
      modifies this
      ensures status == Available && IsAvailable()
      ensures title == old(title) && author == old(author) && isbn == old(isbn)
    {
      status := Available;
    }

    /** `is_available`: the saved record of an available book shows status "available". */
    predicate IsAvailable()
      reads this
      ensures IsAvailable() <==> ToDict().status == Available
    {
      status == Available
    }

    /** `to_dict`: the record `save_books` writes, field for field. */
    function ToDict(): (r: BookRecord)
      reads this
      ensures r.title == title && r.author == author && r.isbn == isbn && r.status == status
    {
      BookRecord(title, author, isbn, status)
    }
  }

  /** The match test of `search_by_isbn`: exact equality. */
  function IsbnIs(isbn: string): string -> bool
  {
    x => x == isbn
  }

  /** The match test of `search_by_title`: equality after lower-casing both sides. */
  function TitleIs(title: string): string -> bool
  {
    x => Text.Lower(x) == Text.Lower(title)
  }

  class LibraryInventory {
    var books: seq<Book>

    /** `LibraryInventory()` with no saved file: an empty list. */
    constructor ()
      ensures books == []
    {
      books := [];
    }

    function Isbns(): (r: seq<string>)
      reads this, books
      ensures |r| == |books| && forall i :: 0 <= i < |books| ==> r[i] == books[i].isbn
    {
      seq(|books|, i reads this, books requires 0 <= i < |books| => books[i].isbn)
    }

    function Titles(): (r: seq<string>)
      reads this, books
      ensures |r| == |books| && forall i :: 0 <= i < |books| ==> r[i] == books[i].title
    {
      seq(|books|, i reads this, books requires 0 <= i < |books| => books[i].title)
    }

    /** Position of the first book with this ISBN. */
    function IsbnIndex(isbn: string): Option<nat>
      reads this, books
    {
      Search.FirstIndexWhere(Isbns(), IsbnIs(isbn))
    }

    /** Position of the first book with this title, ignoring case. */
    function TitleIndex(title: string): Option<nat>
      reads this, books
    {
      Search.FirstIndexWhere(Titles(), TitleIs(title))
    }

    /** `add_book`: the book goes at the end; the books before it stay as they were. */
    method AddBook(b: Book)
      modifies this
      ensures books == old(books) + [b]
    {
      books := books + [b];
    }

    /** `search_by_isbn`: the first book whose ISBN is exactly `isbn`, or null when none is. */
    method SearchByIsbn(isbn: string) returns (b: Book?)
      ensures b == null <==> forall i :: 0 <= i < |books| ==> books[i].isbn != isbn
      ensures b != null ==> IsbnIndex(isbn).Some? && b == books[IsbnIndex(isbn).value] && b.isbn == isbn
    {
      var i := 0;
      while i < |books|
        invariant 0 <= i <= |books|
        invariant forall j :: 0 <= j < i ==> books[j].isbn != isbn
      {
        if books[i].isbn == isbn {
          Search.FirstIndexWhereUnique(Isbns(), IsbnIs(isbn), i);
          return books[i];
        }
        i := i + 1;
      }
      return null;
    }

    /** `search_by_title`: the first book whose lower-cased title equals the lower-cased
        query, or null when none does. */
    method SearchByTitle(title: string) returns (b: Book?)
      ensures b == null <==> forall i :: 0 <= i < |books| ==> Text.Lower(books[i].title) != Text.Lower(title)
      ensures b != null ==> TitleIndex(title).Some? && b == books[TitleIndex(title).value]
      ensures b != null ==> Text.Lower(b.title) == Text.Lower(title)
    {
      var i := 0;
      while i < |books|
        invariant 0 <= i <= |books|
        invariant forall j :: 0 <= j < i ==> Text.Lower(books[j].title) != Text.Lower(title)
      {
        if Text.Lower(books[i].title) == Text.Lower(title) {
          Search.FirstIndexWhereUnique(Titles(), TitleIs(title), i);
          return books[i];
        }
        i := i + 1;
      }
      return null;
    }

    /** Menu choice 2: issue the first book with this ISBN if it is available. A missing
        or unavailable book leaves every book as it was. */
    method IssueBook(isbn: string) returns (ok: bool)
      modifies books
      ensures books == old(books)
      ensures var k := old(IsbnIndex(isbn));
        ok == (k.Some? && old(books[k.value].status) == Available)
      ensures forall j :: 0 <= j < |books| ==>
        books[j].title == old(books[j].title) && books[j].author == old(books[j].author) && books[j].isbn == old(books[j].isbn)
      ensures var k := old(IsbnIndex(isbn));
        forall j :: 0 <= j < |books| ==>
          books[j].status == if ok && books[j] == books[k.value] then Issued else old(books[j].status)
    {
      var b := SearchByIsbn(isbn);
      if b != null && b.IsAvailable() {
        b.Issue();
        ok := true;
      } else {
        ok := false;
      }
    }

    /** Menu choice 3: return the first book with this ISBN, whatever its status was. An
        unknown ISBN leaves every book as it was. */
    method ReturnBook(isbn: string) returns (ok: bool)
      modifies books
      ensures books == old(books)
      ensures ok == old(IsbnIndex(isbn)).Some?
      ensures forall j :: 0 <= j < |books| ==>
        books[j].title == old(books[j].title) && books[j].author == old(books[j].author) && books[j].isbn == old(books[j].isbn)
      ensures var k := old(IsbnIndex(isbn));
        forall j :: 0 <= j < |books| ==>
          books[j].status == if ok && books[j] == books[k.value] then Available else old(books[j].status)
    {
      var b := SearchByIsbn(isbn);
      if b != null {
        b.ReturnBook();
        ok := true;
      } else {
        ok := false;
      }
    }
  }
}
