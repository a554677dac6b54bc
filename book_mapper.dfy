/** `BookMapper`: conversions between the book entity and its DTOs, the
    null-ignoring partial update of a book, and the `Year`/`Integer`
    conversions of the year of publication. */
module BookMapper {
  import opened Wrappers
  import opened Calendar
  import opened Model
  import opened BookRequest

  datatype BookDto = BookDto(
    id: Option<int>,
    title: Option<string>,
    genre: Option<string>,
    yearOfPublication: int,
    numberOfPages: Option<int>,
    isbn: Option<string>)

  /** `yearToInteger`: `year.getValue()`; `Year.of` gives the year back. */
  function YearToInteger(year: Year): (i: int)
    ensures InYearRange(i) ==> YearOf(i) == year
  {
    year.value
  }

  /** `integerToYear`: `Year.of(integer)`, which throws outside the year range;
      `getValue` gives the integer back. */
  function IntegerToYear(i: int): (y: Year)
    requires InYearRange(i)
    ensures YearToInteger(y) == i
  {
    YearOf(i)
  }

  /** `toDto`: id, title, genre, pages and ISBN copied, the year as its integer
      value. Nothing but the id and the author is lost: a new entity built
      from the DTO's fields is the book without them. */
  function ToDto(b: Book): (r: BookDto)
    ensures r.id == b.id
    ensures InYearRange(r.yearOfPublication) ==>
              ToEntity(BookRequestDto(r.title, r.genre, Some(r.yearOfPublication), r.numberOfPages, r.isbn))
              == b.(id := None, author := null)
  {
    BookDto(b.id, b.title, b.genre, YearToInteger(b.yearOfPublication), b.numberOfPages, b.isbn)
  }

  /** `books.stream().map(bookMapper::toDto).toList()`: one DTO per book, in order. */
  function ToDtos(books: seq<Book>): (r: seq<BookDto>)
    ensures |r| == |books|
    ensures forall i :: 0 <= i < |books| ==> r[i] == ToDto(books[i])
  {
    if |books| == 0 then [] else [ToDto(books[0])] + ToDtos(books[1..])
  }

  /** A request year that `integerToYear` converts without throwing. */
  predicate YearConvertible(year: Option<int>) {
    year.Some? && InYearRange(year.value)
  }

  /** `toEntity`: a book carrying the request fields, the year converted;
      neither id nor author is a request field, so both stay unset. The
      entity already holds everything the request carries: a partial update
      of it from the same request changes nothing. */
  function ToEntity(req: BookRequestDto): (b: Book)
    requires YearConvertible(req.yearOfPublication)
    ensures b.id.None? && b.author == null
    ensures PartialUpdate(req, b) == b
  {
    Book(None, req.title, req.genre, IntegerToYear(req.yearOfPublication.value),
         req.numberOfPages, req.isbn, null)
  }

  /** A new entity maps back to exactly the request's fields, without an id. */
  lemma ToEntityThenToDto(req: BookRequestDto)
    requires YearConvertible(req.yearOfPublication)
    ensures ToDto(ToEntity(req)) ==
              BookDto(None, req.title, req.genre, req.yearOfPublication.value,
                      req.numberOfPages, req.isbn)
  {
  }

  /** A request year that a partial update can convert: null is skipped. */
  predicate PatchYearConvertible(year: Option<int>) {
    year.None? || InYearRange(year.value)
  }

  /** `partialUpdate`: each non-null request field overwrites the book's
      field (the year converted by `integerToYear`); null fields are skipped;
      the id and the author, which the request does not have, never change. */
  function PartialUpdate(req: BookRequestDto, b: Book): (u: Book)
    requires PatchYearConvertible(req.yearOfPublication)
    ensures u.id == b.id && u.author == b.author
    ensures req.title.Some? ==> u.title == req.title
    ensures req.title.None? ==> u.title == b.title
    ensures req.genre.Some? ==> u.genre == req.genre
    ensures req.genre.None? ==> u.genre == b.genre
    ensures req.yearOfPublication.Some? ==> u.yearOfPublication.value == req.yearOfPublication.value
    ensures req.yearOfPublication.None? ==> u.yearOfPublication == b.yearOfPublication
    ensures req.numberOfPages.Some? ==> u.numberOfPages == req.numberOfPages
    ensures req.numberOfPages.None? ==> u.numberOfPages == b.numberOfPages
    ensures req.isbn.Some? ==> u.isbn == req.isbn
    ensures req.isbn.None? ==> u.isbn == b.isbn
  {
    b.(title := req.title.Or(b.title),
       genre := req.genre.Or(b.genre),
       yearOfPublication :=
         if req.yearOfPublication.Some? then IntegerToYear(req.yearOfPublication.value)
         else b.yearOfPublication,
       numberOfPages := req.numberOfPages.Or(b.numberOfPages),
       isbn := req.isbn.Or(b.isbn))
  }

  /** After an update from a request with every field present, the book keeps
      its id and shows the request's fields. */
  lemma FullUpdateShowsRequest(req: BookRequestDto, b: Book)
    requires YearConvertible(req.yearOfPublication)
    requires req.title.Some? && req.genre.Some? && req.numberOfPages.Some? && req.isbn.Some?
    ensures ToDto(PartialUpdate(req, b)) ==
              BookDto(b.id, req.title, req.genre, req.yearOfPublication.value,
                      req.numberOfPages, req.isbn)
  {
  }

  /** Updating twice with one request is updating once. */
  lemma PartialUpdateIdempotent(req: BookRequestDto, b: Book)
    requires PatchYearConvertible(req.yearOfPublication)
    ensures PartialUpdate(req, PartialUpdate(req, b)) == PartialUpdate(req, b)
  {
  }
}
