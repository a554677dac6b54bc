/** `AuthorMapper`: conversions between the author entity and its DTOs, and
    the null-ignoring partial update of an author from a request. */
module AuthorMapper {
  import opened Wrappers
  import opened Calendar
  import opened Model
  import opened AuthorRequest

  datatype AuthorDto = AuthorDto(
    id: Option<int>,
    firstName: Option<string>,
    lastName: Option<string>,
    dateOfBirth: Option<Date>,
    country: Option<string>)

  /** The fields of `toEntity(req)`: the four request fields, no id, no books. */
  function EntityRow(req: AuthorRequestDto): AuthorRow {
    AuthorRow(None, req.firstName, req.lastName, req.dateOfBirth, req.country, [])
  }

  /** `toDto`: the five scalar fields of the author; the books are not mapped.
      Nothing but the id and the book list is lost: an entity built from the
      DTO's four fields has exactly the author's fields. */
  function ToDto(a: Author): (r: AuthorDto)
    reads a
    ensures r.id == a.id
    ensures EntityRow(AuthorRequestDto(r.firstName, r.lastName, r.dateOfBirth, r.country))
            == a.Row().(id := None, books := [])
  {
    AuthorDto(a.id, a.firstName, a.lastName, a.dateOfBirth, a.country)
  }

  /** `toEntity`: a new author carrying the four request fields. The id is not
      a request field, so it stays unset, and the book list is empty. Its DTO
      echoes the request. */
  method ToEntity(req: AuthorRequestDto) returns (a: Author)
    ensures fresh(a)
    ensures a.Row() == EntityRow(req)
    ensures ToDto(a) == AuthorDto(None, req.firstName, req.lastName, req.dateOfBirth, req.country)
  {
    a := new Author();
    a.firstName := req.firstName;
    a.lastName := req.lastName;
    a.dateOfBirth := req.dateOfBirth;
    a.country := req.country;
  }

  /** The author fields after a null-ignoring update from `req`. */
  function Patched(req: AuthorRequestDto, row: AuthorRow): AuthorRow {
    row.(firstName := req.firstName.Or(row.firstName),
         lastName := req.lastName.Or(row.lastName),
         dateOfBirth := req.dateOfBirth.Or(row.dateOfBirth),
         country := req.country.Or(row.country))
  }

  /** `partialUpdate`: overwrite each field of `author` whose request value is
      non-null, and return the same object. */
  method PartialUpdate(req: AuthorRequestDto, author: Author) returns (r: Author)
    modifies author
    ensures r == author
    ensures author.Row() == Patched(req, old(author.Row()))
  {
    if req.firstName.Some? {
      author.firstName := req.firstName;
    }
    if req.lastName.Some? {
      author.lastName := req.lastName;
    }
    if req.dateOfBirth.Some? {
      author.dateOfBirth := req.dateOfBirth;
    }
    if req.country.Some? {
      author.country := req.country;
    }
    r := author;
  }

  /** A non-null request field is what the author holds afterwards. */
  lemma PatchedTakesPresentFields(req: AuthorRequestDto, row: AuthorRow)
    ensures req.firstName.Some? ==> Patched(req, row).firstName == req.firstName
    ensures req.lastName.Some? ==> Patched(req, row).lastName == req.lastName
    ensures req.dateOfBirth.Some? ==> Patched(req, row).dateOfBirth == req.dateOfBirth
    ensures req.country.Some? ==> Patched(req, row).country == req.country
  {
  }

  /** A null request field leaves the stored value; id and books are never touched. */
  lemma PatchedKeepsAbsentFields(req: AuthorRequestDto, row: AuthorRow)
    ensures req.firstName.None? ==> Patched(req, row).firstName == row.firstName
    ensures req.lastName.None? ==> Patched(req, row).lastName == row.lastName
    ensures req.dateOfBirth.None? ==> Patched(req, row).dateOfBirth == row.dateOfBirth
    ensures req.country.None? ==> Patched(req, row).country == row.country
    ensures Patched(req, row).id == row.id && Patched(req, row).books == row.books
  {
  }

  /** Updating twice with one request is updating once. */
  lemma PatchedIdempotent(req: AuthorRequestDto, row: AuthorRow)
    ensures Patched(req, Patched(req, row)) == Patched(req, row)
  {
  }

  /** An all-null request changes nothing. */
  lemma EmptyPatchIsIdentity(row: AuthorRow)
    ensures Patched(AuthorRequestDto(None, None, None, None), row) == row
  {
  }
}
