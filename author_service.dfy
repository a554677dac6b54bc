/** `AuthorServiceImpl`: the ten author and book operations over the author
    repository, which is modelled as the map from id to stored author that the
    repository holds, with `order` the order in which `findAll` lists them.
    The `ErrorResponseException`s the source throws are the `NotFound` and
    `NoContent` results. */
module AuthorService {
  import opened Wrappers
  import opened Calendar
  import opened Model
  import opened AuthorRequest
  import opened BookRequest
  import AuthorMapper
  import BookMapper

  /** Every operation ends in exactly one of these. */
  datatype Result<T> = Success(value: T) | NotFound | NoContent

  /** `i` is the first position in `books` whose id is `bookId`. */
  predicate IsFirstMatch(books: seq<Book>, bookId: int, i: int) {
    && 0 <= i < |books|
    && books[i].id == Some(bookId)
    && forall j :: 0 <= j < i ==> books[j].id != Some(bookId)
  }

  /** The scan of `getOptionalBook`: `filter(b -> bookId.equals(b.getId())).findFirst()`,
      as the position of the book it finds. */
  function FirstBookIndex(books: seq<Book>, bookId: int): (r: Option<nat>)
    ensures r.Some? ==> IsFirstMatch(books, bookId, r.value)
    ensures r.None? ==> forall j :: 0 <= j < |books| ==> books[j].id != Some(bookId)
  {
    if |books| == 0 then None
    else if books[0].id == Some(bookId) then Some(0)
    else match FirstBookIndex(books[1..], bookId)
      case None => None
      case Some(i) => Some(i + 1)
  }

  /** At most one position is the first match. */
  lemma FirstMatchUnique(books: seq<Book>, bookId: int, i: int, j: int)
    requires IsFirstMatch(books, bookId, i) && IsFirstMatch(books, bookId, j)
    ensures i == j
  {
  }

  /** A book appended under an id no earlier book carries is the one the
      scan finds. */
  lemma AppendedBookFound(books: seq<Book>, book: Book)
    requires book.id.Some?
    requires forall b :: b in books ==> b.id != book.id
    ensures FirstBookIndex(books + [book], book.id.value) == Some(|books|)
  {
    var found := FirstBookIndex(books + [book], book.id.value);
    assert IsFirstMatch(books + [book], book.id.value, |books|);
    if found.Some? {
      FirstMatchUnique(books + [book], book.id.value, found.value, |books|);
    }
  }

  /** `getOptionalBook(authorId, bookId, author)`: a missing author is
      `NotFound`; otherwise the first book of that author's own list with id
      `bookId`, if any. */
  function GetOptionalBook(bookId: int, author: Option<Author>): (r: Result<Option<Book>>)
    reads if author.Some? then {author.value} else {}
    ensures r.NotFound? <==> author.None?
    ensures !r.NoContent?
    ensures r.Success? && r.value.Some? ==>
              exists i :: IsFirstMatch(author.value.books, bookId, i) && r.value.value == author.value.books[i]
    ensures r.Success? && r.value.None? ==>
              forall b :: b in author.value.books ==> b.id != Some(bookId)
  {
    if author.None? then NotFound
    else match FirstBookIndex(author.value.books, bookId)
      case None => Success(None)
      case Some(i) => Success(Some(author.value.books[i]))
  }

  /** `List.remove(Object)`: drop the first element that `x.equals`. */
  function RemoveFirstEqual(books: seq<Book>, x: Book): seq<Book> {
    if |books| == 0 then []
    else if Equals(x, BookObject(books[0])) then books[1..]
    else [books[0]] + RemoveFirstEqual(books[1..], x)
  }

  /** `List.remove` takes out exactly one occurrence of `x` when there is
      one, and otherwise leaves the list as it was. */
  lemma {:induction false} RemoveFirstEqualOnce(books: seq<Book>, x: Book)
    ensures x in books ==>
              && multiset(RemoveFirstEqual(books, x)) == multiset(books) - multiset{x}
              && |RemoveFirstEqual(books, x)| == |books| - 1
    ensures x !in books ==> RemoveFirstEqual(books, x) == books
  {
    if |books| > 0 {
      assert books == [books[0]] + books[1..];
      RemoveFirstEqualOnce(books[1..], x);
    }
  }

  /** Removing the book the scoped lookup found removes exactly its position:
      no earlier book has its id, so none is equal to it. */
  lemma {:induction false} RemoveFoundBook(books: seq<Book>, bookId: int, i: int)
    requires IsFirstMatch(books, bookId, i)
    ensures RemoveFirstEqual(books, books[i]) == books[..i] + books[i + 1..]
  {
    if i > 0 {
      var tail := books[1..];
      assert IsFirstMatch(tail, bookId, i - 1);
      RemoveFoundBook(tail, bookId, i - 1);
      assert RemoveFirstEqual(books, books[i]) == [books[0]] + RemoveFirstEqual(tail, books[i]) by {
        assert !Equals(books[i], BookObject(books[0]));
      }
      assert tail[..i - 1] + tail[i..] == books[1..i] + books[i + 1..];
      assert [books[0]] + (books[1..i] + books[i + 1..]) == books[..i] + books[i + 1..];
    }
  }

  /** `s` without the element `x`. */
  function Without(s: seq<int>, x: int): (r: seq<int>)
    ensures forall y :: y in r <==> y in s && y != x
  {
    if |s| == 0 then []
    else if s[0] == x then Without(s[1..], x)
    else [s[0]] + Without(s[1..], x)
  }

  /** Removing an element keeps a duplicate-free sequence duplicate-free. */
  lemma {:induction false} WithoutDistinct(s: seq<int>, x: int)
    requires Distinct(s)
    ensures Distinct(Without(s, x))
  {
    if |s| > 0 {
      assert Distinct(s[1..]) by {
        forall i, j | 0 <= i < j < |s| - 1 ensures s[1..][i] != s[1..][j] {
          assert s[1..][i] == s[i + 1] && s[1..][j] == s[j + 1];
        }
      }
      WithoutDistinct(s[1..], x);
      if s[0] != x {
        forall j | 0 <= j < |s| - 1 ensures s[1..][j] != s[0] {
          assert s[1..][j] == s[j + 1];
        }
        assert s[0] !in Without(s[1..], x);
      }
    }
  }

  predicate Distinct(s: seq<int>) {
    forall i, j :: 0 <= i < j < |s| ==> s[i] != s[j]
  }

  /** A duplicate-free sequence has as many distinct elements as positions. */
  lemma {:induction false} DistinctCardinality(s: seq<int>)
    requires Distinct(s)
    ensures |set x | x in s| == |s|
  {
    if |s| > 0 {
      DistinctCardinality(s[1..]);
      assert (set x | x in s) == (set x | x in s[1..]) + {s[0]};
      assert s[0] !in s[1..];
    }
  }

  /** Every book in the list is stored with an id and belongs to `owner`. */
  predicate OwnedBy(books: seq<Book>, owner: Author) {
    forall b :: b in books ==> b.id.Some? && b.author == owner
  }

  /** No two books of the list share an id. */
  predicate IdsDistinct(books: seq<Book>) {
    forall i, j :: 0 <= i < |books| && 0 <= j < |books| && i != j ==> books[i].id != books[j].id
  }

  /** No book of `xs` has the id of a book of `ys`. */
  predicate IdsDisjoint(xs: seq<Book>, ys: seq<Book>) {
    forall b, c :: b in xs && c in ys ==> b.id != c.id
  }

  /** Every book of the list carries an id that `issued` assigns to author `k`. */
  predicate IssuedUnder(books: seq<Book>, issued: map<int, int>, k: int) {
    forall b :: b in books ==> b.id.Some? && b.id.value in issued && issued[b.id.value] == k
  }

  /** Author `a` as stored under key `k`: it carries `k` as its id, and its
      books are stored with distinct ids issued under `k` and refer back to
      `a`. */
  predicate StoredAuthor(k: int, a: Author, issued: map<int, int>)
    reads a
  {
    && a.id == Some(k)
    && OwnedBy(a.books, a)
    && IdsDistinct(a.books)
    && IssuedUnder(a.books, issued, k)
  }

  /** The authors of a repository map as values. */
  ghost function RowsOf(m: map<int, Author>): map<int, AuthorRow>
    reads m.Values
  {
    map k | k in m :: m[k].Row()
  }

  /** Adding a key adds exactly its row. */
  lemma RowsOfInsert(m: map<int, Author>, k: int, a: Author)
    ensures RowsOf(m[k := a]) == RowsOf(m)[k := a.Row()]
  {
    assert RowsOf(m[k := a]).Keys == RowsOf(m).Keys + {k};
  }

  /** Removing a key removes exactly its row. */
  lemma RowsOfRemove(m: map<int, Author>, k: int)
    ensures RowsOf(m - {k}) == RowsOf(m) - {k}
  {
    assert RowsOf(m - {k}).Keys == RowsOf(m).Keys - {k};
  }

  /** Dropping position `i` keeps the ids distinct and adds no book. */
  lemma RemovalKeepsIds(books: seq<Book>, i: int)
    requires 0 <= i < |books| && IdsDistinct(books)
    ensures IdsDistinct(books[..i] + books[i + 1..])
    ensures forall b :: b in books[..i] + books[i + 1..] ==> b in books
  {
    var rest := books[..i] + books[i + 1..];
    forall p | 0 <= p < |rest| ensures rest[p] == books[if p < i then p else p + 1] {
    }
  }

  class AuthorServiceImpl {
    var authors: map<int, Author>
    var order: seq<int>
    /** The author key each book id was issued under. */
    ghost var bookAuthor: map<int, int>

    /** The store's invariant: `order` lists every key once; each stored
        author carries its key as id; every book of an author is stored with
        an id and refers back to that author; no two stored books share an
        id, as the primary key of the book table demands (each id is issued
        under one author, and ids within a list are distinct). */
    ghost predicate Valid()
      reads this, authors.Values
    {
      && (forall k :: k in authors ==> k in order)
      && (forall i :: 0 <= i < |order| ==> order[i] in authors)
      && Distinct(order)
      && (forall k :: k in authors ==> StoredAuthor(k, authors[k], bookAuthor))
    }

    /** No stored book carries `bookId`. */
    ghost predicate BookIdUnused(bookId: int)
      reads this, authors.Values
    {
      forall k :: k in authors ==> forall b :: b in authors[k].books ==> b.id != Some(bookId)
    }

    /** The stored authors as values. */
    ghost function Rows(): map<int, AuthorRow>
      reads this`authors, authors.Values
    {
      RowsOf(authors)
    }

    /** An empty repository. */
    constructor ()
      ensures Valid() && authors == map[] && order == []
    {
      authors := map[];
      order := [];
      bookAuthor := map[];
    }

    /** Two keys never share a stored author object. */
    lemma DistinctKeysDistinctAuthors()
      requires Valid()
      ensures forall k, k' :: k in authors && k' in authors && k != k' ==> authors[k] != authors[k']
    {
    }

    /** Books of two different authors never share an id. */
    lemma BookIdsDisjoint(k: int, k': int)
      requires Valid()
      requires k in authors && k' in authors && k != k'
      ensures IdsDisjoint(authors[k].books, authors[k'].books)
    {
      forall b, c | b in authors[k].books && c in authors[k'].books ensures b.id != c.id {
        assert bookAuthor[b.id.value] == k && bookAuthor[c.id.value] == k';
      }
    }

    /** `findAll` lists each stored author exactly once. */
    lemma StoredCount()
      requires Valid()
      ensures |authors| == |order|
    {
      DistinctCardinality(order);
      var listed := set x | x in order;
      assert authors.Keys == listed by {
        forall x ensures x in authors.Keys <==> x in listed {
          if x in listed {
            var i :| 0 <= i < |order| && order[i] == x;
          }
        }
      }
    }

    /** The author listed at each position of `order` carries that id. */
    lemma ListedIds()
      requires Valid()
      ensures forall i :: 0 <= i < |order| ==> authors[order[i]].id == Some(order[i])
    {
      forall i | 0 <= i < |order| ensures authors[order[i]].id == Some(order[i]) {
        var k := order[i];
        assert k in authors;
        assert authors[k].id == Some(k);
      }
    }

    /** One DTO per listed id, in the order given. */
    function AuthorDtos(ids: seq<int>): (r: seq<AuthorMapper.AuthorDto>)
      reads this, authors.Values
      requires forall i :: 0 <= i < |ids| ==> ids[i] in authors
      ensures |r| == |ids|
      ensures forall i :: 0 <= i < |ids| ==> r[i] == AuthorMapper.ToDto(authors[ids[i]])
    {
      if |ids| == 0 then [] else [AuthorMapper.ToDto(authors[ids[0]])] + AuthorDtos(ids[1..])
    }

    /** `getAllAuthors`: `NoContent` on an empty store, otherwise one DTO per
        stored author, in `findAll` order. */
    function GetAllAuthors(): (r: Result<seq<AuthorMapper.AuthorDto>>)
      reads this, authors.Values
      requires Valid()
      ensures !r.NotFound?
      ensures r.NoContent? <==> |authors| == 0
      ensures r.Success? ==> |r.value| == |authors| == |order|
      ensures r.Success? ==> forall i :: 0 <= i < |r.value| ==>
                r.value[i] == AuthorMapper.ToDto(authors[order[i]]) && r.value[i].id == Some(order[i])
      ensures r.Success? ==> forall k :: k in authors ==>
                exists i :: 0 <= i < |r.value| && r.value[i].id == Some(k)
    {
      StoredCount();
      ListedIds();
      if |order| == 0 then NoContent else Success(AuthorDtos(order))
    }

    /** `getAuthorById` */
    function GetAuthorById(id: int): (r: Result<AuthorMapper.AuthorDto>)
      reads this, authors.Values
      requires Valid()
      ensures r.NotFound? <==> id !in authors
      ensures !r.NoContent?
      ensures r.Success? ==> r.value == AuthorMapper.ToDto(authors[id]) && r.value.id == Some(id)
    {
      if id in authors then Success(AuthorMapper.ToDto(authors[id])) else NotFound
    }

    /** `getAllBooksOfAuthorByAuthorId`: a missing author is `NotFound` before
        an empty list is `NoContent`; otherwise the author's books in order. */
    function GetAllBooksOfAuthorByAuthorId(id: int): (r: Result<seq<BookMapper.BookDto>>)
      reads this, authors.Values
      ensures r.NotFound? <==> id !in authors
      ensures r.NoContent? <==> id in authors && |authors[id].books| == 0
      ensures r.Success? ==> |r.value| == |authors[id].books|
      ensures r.Success? ==> forall i :: 0 <= i < |r.value| ==>
                r.value[i] == BookMapper.ToDto(authors[id].books[i])
    {
      if id !in authors then NotFound
      else if |authors[id].books| == 0 then NoContent
      else Success(BookMapper.ToDtos(authors[id].books))
    }

    /** The author with this id, as `findById` gives it. */
    function FindById(id: int): (r: Option<Author>)
      reads this
      ensures r.Some? <==> id in authors
      ensures r.Some? ==> r.value == authors[id]
    {
      if id in authors then Some(authors[id]) else None
    }

    /** `getBookOfAuthorByBookId`: the first book of that author's list with
        id `bookId`; `NotFound` when the author is missing or has no such book. */
    function GetBookOfAuthorByBookId(authorId: int, bookId: int): (r: Result<BookMapper.BookDto>)
      reads this, authors.Values
      ensures !r.NoContent?
      ensures r.Success? <==>
                authorId in authors && exists b :: b in authors[authorId].books && b.id == Some(bookId)
      ensures r.Success? ==> r.value.id == Some(bookId)
      ensures r.Success? ==> exists i :: IsFirstMatch(authors[authorId].books, bookId, i)
                                      && r.value == BookMapper.ToDto(authors[authorId].books[i])
    {
      var found := GetOptionalBook(bookId, FindById(authorId));
      if found.Success? && found.value.Some? then Success(BookMapper.ToDto(found.value.value)) else NotFound
    }

    /** A book stored under another author is never what the scoped lookup
        of this author finds: asking this author for that book's id is
        `NotFound`. */
    lemma ForeignBookNeverFound(authorId: int, bookId: int, other: int, b: Book)
      requires Valid()
      requires authorId in authors && other in authors && other != authorId
      requires b in authors[other].books
      ensures b !in authors[authorId].books
      ensures GetOptionalBook(bookId, Some(authors[authorId])) != Success(Some(b))
      ensures b.id.Some? && GetBookOfAuthorByBookId(authorId, b.id.value) == NotFound
    {
      DistinctKeysDistinctAuthors();
      BookIdsDisjoint(other, authorId);
    }

    /** `saveNewAuthor`: store a new author built from the request under the id
        the repository generates (`newId`) and return it. */
    method SaveNewAuthor(req: AuthorRequestDto, newId: int) returns (r: AuthorMapper.AuthorDto)
      requires Valid()
      requires newId !in authors
      modifies this
      ensures Valid()
      ensures newId in authors && fresh(authors[newId])
      ensures authors == old(authors)[newId := authors[newId]]
      ensures Rows() == old(Rows())[newId := AuthorMapper.EntityRow(req).(id := Some(newId))]
      ensures order == old(order) + [newId]
      ensures r == AuthorMapper.AuthorDto(Some(newId), req.firstName, req.lastName, req.dateOfBirth, req.country)
    {
      var author := AuthorMapper.ToEntity(req);
      // authorRepository.save: the new row gets its generated id
      author.id := Some(newId);
      Insert(newId, author);
      r := AuthorMapper.ToDto(author);
    }

    /** The repository row for a new author: the key joins the store and the
        end of the listing; no stored author changes. */
    method Insert(newId: int, author: Author)
      requires Valid()
      requires newId !in authors && author !in authors.Values
      requires author.id == Some(newId) && author.books == []
      modifies this
      ensures Valid()
      ensures authors == old(authors)[newId := author]
      ensures order == old(order) + [newId]
      ensures Rows() == old(Rows())[newId := author.Row()]
    {
      RowsOfInsert(authors, newId, author);
      authors := authors[newId := author];
      order := order + [newId];
    }

    /** `updateAuthor`: a missing author is `NotFound` and nothing changes;
        otherwise the non-null request fields overwrite the stored author's,
        which is returned. */
    method UpdateAuthor(id: int, req: AuthorRequestDto) returns (r: Result<AuthorMapper.AuthorDto>)
      requires Valid()
      modifies authors.Values
      ensures Valid()
      ensures r.NotFound? <==> id !in authors
      ensures r.NotFound? ==> Rows() == old(Rows())
      ensures r.Success? ==> Rows() == old(Rows())[id := AuthorMapper.Patched(req, old(Rows())[id])]
      ensures r.Success? ==>
                var merged := AuthorMapper.Patched(req, old(Rows())[id]);
                r.value == AuthorMapper.AuthorDto(Some(id), merged.firstName, merged.lastName,
                                                  merged.dateOfBirth, merged.country)
      ensures !r.NoContent?
    {
      var author := FindById(id);
      if author.Some? {
        DistinctKeysDistinctAuthors();
        var a := author.value;
        ghost var before := Rows();
        var updated := AuthorMapper.PartialUpdate(req, a);
        // authorRepository.save(updatedAuthor): the stored row is this object
        r := Success(AuthorMapper.ToDto(updated));
        forall k | k in authors ensures Rows()[k] == before[id := AuthorMapper.Patched(req, before[id])][k] {
          if k != id {
            assert authors[k] != a;
          }
        }
        assert Rows().Keys == before.Keys;
      } else {
        r := NotFound;
      }
    }

    /** `deleteAuthorById`: a missing author is `NotFound` and nothing changes;
        otherwise the author, with its books, leaves the store and its id is
        returned. */
    method DeleteAuthorById(id: int) returns (r: Result<int>)
      requires Valid()
      modifies this
      ensures Valid()
      ensures r.NotFound? <==> id !in old(authors)
      ensures r.NotFound? ==> authors == old(authors) && order == old(order)
      ensures r.Success? ==> r.value == id
      ensures r.Success? ==> authors == old(authors) - {id} && order == Without(old(order), id)
      ensures id !in authors && Rows() == old(Rows()) - {id}
      ensures !r.NoContent?
    {
      var author := FindById(id);
      if author.Some? {
        WithoutDistinct(order, id);
        authors := authors - {id};
        order := Without(order, id);
        assert forall i :: 0 <= i < |order| ==> order[i] in order;
        RowsOfRemove(old(authors), id);
        r := Success(id);
      } else {
        r := NotFound;
      }
    }

    /** The author's book list after `books.add`, `books.remove` or a change
        to one of its books: only that author's list changes. */
    method SetBooks(id: int, books: seq<Book>)
      requires Valid() && id in authors
      requires OwnedBy(books, authors[id])
      requires IdsDistinct(books) && IssuedUnder(books, bookAuthor, id)
      modifies authors[id]
      ensures Valid()
      ensures Rows() == old(Rows())[id := old(Rows())[id].(books := books)]
    {
      var a := authors[id];
      DistinctKeysDistinctAuthors();
      a.books := books;
      forall k | k in authors ensures Rows()[k] == old(Rows())[id := old(Rows())[id].(books := books)][k] {
        if k != id {
          assert authors[k] != a;
        }
      }
      assert Rows().Keys == old(Rows()).Keys;
    }

    /** Records that book id `bookId`, used by no stored book, is issued
        under author key `k`. */
    method IssueBookId(bookId: int, k: int)
      requires Valid() && k in authors && BookIdUnused(bookId)
      modifies this`bookAuthor
      ensures Valid()
      ensures bookAuthor == old(bookAuthor)[bookId := k]
    {
      bookAuthor := bookAuthor[bookId := k];
      forall j | j in authors ensures StoredAuthor(j, authors[j], bookAuthor) {
        assert StoredAuthor(j, authors[j], old(bookAuthor));
      }
    }

    /** `saveNewBookOfAuthorByAuthorId`: a missing author is `NotFound` and
        nothing changes; otherwise a book built from the request, owned by that
        author and carrying the id the store generates (`newBookId`), is
        appended to the author's list and returned. */
    method SaveNewBookOfAuthorByAuthorId(id: int, req: BookRequestDto, newBookId: int)
      returns (r: Result<BookMapper.BookDto>)
      requires Valid()
      requires BookIdUnused(newBookId)
      requires id in authors ==> BookMapper.YearConvertible(req.yearOfPublication)
      modifies this, authors.Values
      ensures Valid()
      ensures authors == old(authors) && order == old(order)
      ensures r.NotFound? <==> id !in authors
      ensures r.NotFound? ==> Rows() == old(Rows())
      ensures r.Success? ==>
                var book := BookMapper.ToEntity(req).(id := Some(newBookId), author := authors[id]);
                && Rows() == old(Rows())[id := old(Rows())[id].(books := old(Rows())[id].books + [book])]
                && r.value == BookMapper.ToDto(book)
      ensures r.Success? ==>
                && r.value.id == Some(newBookId)
                && r.value.title == req.title && r.value.genre == req.genre
                && r.value.yearOfPublication == req.yearOfPublication.value
                && r.value.numberOfPages == req.numberOfPages && r.value.isbn == req.isbn
      ensures r.Success? ==> GetBookOfAuthorByBookId(id, newBookId) == Success(r.value)
      ensures !r.NoContent?
    {
      var author := FindById(id);
      if author.Some? {
        var a := author.value;
        var books := a.books;
        var book := BookMapper.ToEntity(req);
        book := book.(author := a);
        // authorRepository.save(author) inserts the book under its generated id
        book := book.(id := Some(newBookId));
        assert forall b :: b in books ==> b.id != book.id;
        AppendedBookFound(books, book);
        IssueBookId(newBookId, id);
        SetBooks(id, books + [book]);
        r := Success(BookMapper.ToDto(book));
        assert a.books == Rows()[id].books == books + [book];
        assert GetOptionalBook(newBookId, FindById(id)) == Success(Some(book));
      } else {
        r := NotFound;
      }
    }

    /** `updateAuthorsBook`: a missing author or a book id absent from that
        author's list is `NotFound` and nothing changes; otherwise the first
        such book takes the non-null request fields in place and is returned. */
    method UpdateAuthorsBook(authorId: int, bookId: int, req: BookRequestDto)
      returns (r: Result<BookMapper.BookDto>)
      requires Valid()
      requires authorId in authors && FirstBookIndex(authors[authorId].books, bookId).Some? ==>
                 BookMapper.PatchYearConvertible(req.yearOfPublication)
      modifies authors.Values
      ensures Valid()
      ensures r.NotFound? <==>
                authorId !in authors || FirstBookIndex(old(authors[authorId].books), bookId).None?
      ensures r.NotFound? ==> Rows() == old(Rows())
      ensures r.Success? ==>
                var row := old(Rows())[authorId];
                var i := FirstBookIndex(row.books, bookId).value;
                var book := BookMapper.PartialUpdate(req, row.books[i]);
                && Rows() == old(Rows())[authorId := row.(books := row.books[i := book])]
                && r.value == BookMapper.ToDto(book)
                && r.value.id == Some(bookId)
      ensures !r.NoContent?
    {
      var author := FindById(authorId);
      var optionalBook := GetOptionalBook(bookId, author);
      if optionalBook.Success? && optionalBook.value.Some? {
        var a := author.value;
        var i := FirstBookIndex(a.books, bookId).value;
        var book := BookMapper.PartialUpdate(req, optionalBook.value.value);
        // the matched book is changed where it sits; authorRepository.save(author)
        SetBooks(authorId, a.books[i := book]);
        r := Success(BookMapper.ToDto(book));
      } else {
        r := NotFound;
      }
    }

    /** `deleteAuthorsBookById`: a missing author or a book id absent from that
        author's list is `NotFound` and nothing changes; otherwise the first
        such book leaves the list and its id is returned. */
    method DeleteAuthorsBookById(authorId: int, bookId: int) returns (r: Result<int>)
      requires Valid()
      modifies authors.Values
      ensures Valid()
      ensures r.NotFound? <==>
                authorId !in authors || FirstBookIndex(old(authors[authorId].books), bookId).None?
      ensures r.NotFound? ==> Rows() == old(Rows())
      ensures r.Success? ==>
                var row := old(Rows())[authorId];
                var i := FirstBookIndex(row.books, bookId).value;
                && Rows() == old(Rows())[authorId := row.(books := row.books[..i] + row.books[i + 1..])]
                && r.value == bookId
      ensures !r.NoContent?
    {
      var author := FindById(authorId);
      var optionalBook := GetOptionalBook(bookId, author);
      if optionalBook.Success? && optionalBook.value.Some? {
        var a := author.value;
        var found := optionalBook.value.value;
        var i := FirstBookIndex(a.books, bookId).value;
        ghost var before := Rows();
        assert before[authorId].books == a.books && found == a.books[i];
        RemoveFoundBook(a.books, bookId, i);
        RemovalKeepsIds(a.books, i);
        ghost var rest := a.books[..i] + a.books[i + 1..];
        // books.remove(book); authorRepository.save(author)
        SetBooks(authorId, RemoveFirstEqual(a.books, found));
        assert Rows() == before[authorId := before[authorId].(books := rest)];
        r := Success(found.id.value);
      } else {
        r := NotFound;
      }
    }
  }

  /** A fresh store, after saving one author under key 1, holds that author
      alone, with no books. */
  method StoreWithOneAuthor() returns (store: AuthorServiceImpl)
    ensures fresh(store) && store.Valid()
    ensures store.authors.Keys == {1} && fresh(store.authors[1])
    ensures store.authors[1].books == []
  {
    store := new AuthorServiceImpl();
    var author := AuthorRequestDto(Some("John"), Some("Smith"), Some(Date(1950, 5, 20)), Some("England"));
    var saved := store.SaveNewAuthor(author, 1);
    assert store.Rows()[1].books == [];
  }

  /** The request both books of the scenarios below are saved from. */
  function SampleBook(): BookRequestDto {
    BookRequestDto(Some("Title"), Some("Genre"), Some(2000), Some(100), Some("9781234567890"))
  }

  /** A fresh store, after saving author 1 and then book 10 under it, holds
      that one author with that one book. */
  method StoreWithOneBook() returns (store: AuthorServiceImpl)
    ensures fresh(store) && store.Valid()
    ensures store.authors.Keys == {1} && fresh(store.authors[1])
    ensures |store.authors[1].books| == 1 && store.authors[1].books[0].id == Some(10)
  {
    store := StoreWithOneAuthor();
    var first := store.SaveNewBookOfAuthorByAuthorId(1, SampleBook(), 10);
    assert store.Rows()[1].books[0].id == Some(10);
  }

  /** A fresh store, after saving author 1 and then books 10 and 11 under
      it, holds that one author with those two books in that order. */
  method StoreWithTwoBooks() returns (store: AuthorServiceImpl)
    ensures fresh(store) && store.Valid()
    ensures store.authors.Keys == {1} && fresh(store.authors[1])
    ensures |store.authors[1].books| == 2
    ensures store.authors[1].books[0].id == Some(10) && store.authors[1].books[1].id == Some(11)
  {
    store := StoreWithOneBook();
    var second := store.SaveNewBookOfAuthorByAuthorId(1, SampleBook(), 11);
    assert store.Rows()[1].books[0].id == Some(10) && store.Rows()[1].books[1].id == Some(11);
  }

  /** An author with books 10 and 11 loses book 10: the delete answers 10 and
      the author's list then holds book 11 alone. */
  method DeleteOneOfTwoBooks() {
    var store := StoreWithTwoBooks();
    assert store.authors.Values == {store.authors[1]};
    var deleted := store.DeleteAuthorsBookById(1, 10);
    assert deleted == Success(10);
    var books := store.GetAllBooksOfAuthorByAuthorId(1);
    assert books.Success? && |books.value| == 1 && books.value[0].id == Some(11);
  }
}
