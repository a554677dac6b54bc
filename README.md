# Author and book library service — a Dafny model

This project models the service core of a small library application. Authors
are kept in a repository keyed by id. Each author owns an ordered list of
books. The service `AuthorServiceImpl` offers ten operations:

- list all authors, create an author, get one, update it partially, delete it;
- list an author's books, add a book, get one, update it partially, delete it.

Get, update and delete of a book look it up only inside the addressed
author's list and take the first element with the requested id.

Each operation ends in one of three outcomes: a value, `NotFound` or
`NoContent`. The Java code signals the last two by throwing
`ErrorResponseException`; here they are the `Result` datatype.

The model also covers the rules the service relies on:

- the MapStruct mappers: DTO conversion and the null-ignoring partial update;
- the Bean Validation rules of the two request records and the custom
  `YearValidator`;
- `Book.equals`, `hashCode` and `toString`;
- the ISBN-13 generator of the test fixtures, whose check digit follows
  ISO 2108 (weights 1 and 3 alternating, modulo 10).

Layout, one module per file:

- `wrappers.dfy`: `Option`, the model of a nullable Java reference.
- `text.dfy`: decimal text of integers, as `StringBuilder.append(int)` and
  string concatenation write it.
- `calendar.dfy`: `java.time.Year` and `LocalDate`.
- `constraints.dfy`: the Bean Validation constraints as predicates on nullable
  fields.
- `year_validator.dfy`: `YearValidator.isValid`, with the current year as a
  parameter.
- `author_request.dfy`, `book_request.dfy`: the request records and their
  validity.
- `model.dfy`: the `Author` entity (a class, since its fields are updated in
  place) and the `Book` entity (a value) with `equals`, `hashCode` and
  `toString`.
- `author_mapper.dfy`, `book_mapper.dfy`: the mappers.
- `author_service.dfy`: the repository and the service as the class
  `AuthorServiceImpl`. It holds `authors: map<int, Author>` and `order`, the
  order in which `findAll` lists the authors.
- `isbn_generator.dfy`: `getValidRandomIsbn`, over an array and loops as in the
  source.

The store invariant `Valid()` holds before and after every operation:

- `order` lists each stored id exactly once;
- each stored author carries its key as its id;
- every stored book has an id and refers back to the author whose list holds
  it;
- book ids are unique across the whole store. The ghost map `bookAuthor`
  records the author key each book id was issued under, and every stored
  book sits under the key its id was issued to.

`Rows()` is the store seen as values. Each mutating method states its whole
new `Rows()`. On every `NotFound` path it states that `Rows()` is unchanged.

## Model

| member | source | states |
|---|---|---|
| AuthorService.AuthorServiceImpl.GetAllAuthors | src/main/java/by/iyunski/library/service/impl/AuthorServiceImpl.java:36-46 | `NoContent` exactly when the store is empty; otherwise one DTO per stored author, in `findAll` order, as many DTOs as authors, and every stored id appears among them |
| AuthorService.AuthorServiceImpl.AuthorDtos | src/main/java/by/iyunski/library/service/impl/AuthorServiceImpl.java:42-44 | `stream().map(authorMapper::toDto).toList()`: one DTO per listed id, as many as ids, each the `ToDto` of the author stored under that id |
| AuthorService.AuthorServiceImpl.StoredCount | src/main/java/by/iyunski/library/service/impl/AuthorServiceImpl.java:37-44 | `findAll` lists as many authors as the store holds: the listing order has no duplicates and covers every key |
| AuthorService.AuthorServiceImpl.SaveNewAuthor | src/main/java/by/iyunski/library/service/impl/AuthorServiceImpl.java:49-53 | a fresh author is stored under the generated id with the four request fields and no books; nothing else changes; the returned DTO is the request's fields with that id |
| AuthorService.AuthorServiceImpl.Insert | src/main/java/by/iyunski/library/service/impl/AuthorServiceImpl.java:51 | `authorRepository.save` of a new author: the key joins the store and the end of the listing, the store invariant still holds, and no stored author changes |
| AuthorService.AuthorServiceImpl.GetAuthorById | src/main/java/by/iyunski/library/service/impl/AuthorServiceImpl.java:56-64 | `NotFound` exactly when the id is absent; otherwise the stored author's DTO, carrying that id |
| AuthorService.AuthorServiceImpl.UpdateAuthor | src/main/java/by/iyunski/library/service/impl/AuthorServiceImpl.java:68-78 | an absent id gives `NotFound` and leaves the store unchanged; otherwise only that author changes, to the null-ignoring merge of the request, and the result is the merged fields under the same id |
| AuthorService.AuthorServiceImpl.DeleteAuthorById | src/main/java/by/iyunski/library/service/impl/AuthorServiceImpl.java:82-91 | an absent id gives `NotFound` and leaves the store unchanged; otherwise exactly that author leaves the store and the listing, and the result is the given id |
| AuthorService.AuthorServiceImpl.GetAllBooksOfAuthorByAuthorId | src/main/java/by/iyunski/library/service/impl/AuthorServiceImpl.java:95-112 | a missing author gives `NotFound` before an empty list gives `NoContent`; otherwise one DTO per book of that author, in list order |
| AuthorService.AuthorServiceImpl.GetBookOfAuthorByBookId | src/main/java/by/iyunski/library/service/impl/AuthorServiceImpl.java:116-125 | succeeds exactly when the author exists and its own list holds a book with that id; the result is the first such book's DTO and carries the requested id |
| AuthorService.AuthorServiceImpl.SaveNewBookOfAuthorByAuthorId | src/main/java/by/iyunski/library/service/impl/AuthorServiceImpl.java:129-142 | a missing author gives `NotFound` and changes nothing; otherwise exactly one book, built from the request, owned by that author and carrying the new id, is appended to that author's list; no other book or author changes; the result shows the request's title, genre, year, pages and ISBN; a later `getBookOfAuthorByBookId` of that author and the new id returns exactly that result |
| AuthorService.AuthorServiceImpl.UpdateAuthorsBook | src/main/java/by/iyunski/library/service/impl/AuthorServiceImpl.java:146-157 | an unknown author or book id gives `NotFound` and changes nothing; otherwise only the first matching book of that author changes, to its partial update, and it is returned with the same id |
| AuthorService.AuthorServiceImpl.DeleteAuthorsBookById | src/main/java/by/iyunski/library/service/impl/AuthorServiceImpl.java:161-172 | an unknown author or book id gives `NotFound` and changes nothing; otherwise only the first matching book leaves that author's list, the rest keep their order, and the result is the requested book id |
| AuthorService.GetOptionalBook | src/main/java/by/iyunski/library/service/impl/AuthorServiceImpl.java:174-185 | `NotFound` exactly when the author is missing; otherwise the first book of that author's own list with the requested id, or none when no book of that list has it |
| AuthorService.FirstBookIndex | src/main/java/by/iyunski/library/service/impl/AuthorServiceImpl.java:177-179 | the position found holds the requested id and no earlier position does; no position is found only when no book has that id |
| AuthorService.FirstMatchUnique | src/main/java/by/iyunski/library/service/impl/AuthorServiceImpl.java:177-179 | there is at most one first match, so the lookup's answer is determined |
| AuthorService.AuthorServiceImpl.ForeignBookNeverFound | src/main/java/by/iyunski/library/service/impl/AuthorServiceImpl.java:174-185 | a book held by another author is not in this author's list, and asking this author for that book's id is `NotFound` |
| AuthorService.AppendedBookFound | src/main/java/by/iyunski/library/service/impl/AuthorServiceImpl.java:177-179 | a book appended under an id no earlier book carries is the one the lookup's scan finds |
| AuthorService.AuthorServiceImpl.BookIdsDisjoint | src/main/java/by/iyunski/library/service/impl/AuthorServiceImpl.java:133-135 | two different stored authors never hold books with the same id |
| AuthorService.RemoveFirstEqualOnce | src/main/java/by/iyunski/library/service/impl/AuthorServiceImpl.java:165 | `List.remove(Object)` removes one occurrence of an element the list holds, shortening it by one, and leaves a list without that element unchanged |
| AuthorService.RemoveFoundBook | src/main/java/by/iyunski/library/service/impl/AuthorServiceImpl.java:165 | `List.remove` of the found book, which compares with `Book.equals`, removes exactly the found position, since no earlier book is equal to it |
| AuthorService.Without | src/main/java/by/iyunski/library/service/impl/AuthorServiceImpl.java:85 | after a delete the listing holds exactly the other ids |
| AuthorService.WithoutDistinct | src/main/java/by/iyunski/library/service/impl/AuthorServiceImpl.java:85 | after a delete the listing still has no duplicates |
| AuthorMapper.ToDto | src/main/java/by/iyunski/library/service/mapper/AuthorMapper.java:15 | the DTO carries the author's id, and read back as a request it gives the author's four fields |
| AuthorMapper.ToEntity | src/main/java/by/iyunski/library/service/mapper/AuthorMapper.java:17 | a fresh author with the four request fields, no id and no books |
| AuthorMapper.PartialUpdate | src/main/java/by/iyunski/library/service/mapper/AuthorMapper.java:19-20 | returns the very object it was given, whose fields become the null-ignoring merge of the request |
| AuthorMapper.PatchedTakesPresentFields | src/main/java/by/iyunski/library/service/mapper/AuthorMapper.java:19-20 | each non-null request field is what the author holds afterwards |
| AuthorMapper.PatchedKeepsAbsentFields | src/main/java/by/iyunski/library/service/mapper/AuthorMapper.java:19-20 | each null request field leaves the stored value; id and books are never touched |
| AuthorMapper.PatchedIdempotent | src/main/java/by/iyunski/library/service/mapper/AuthorMapper.java:19-20 | applying the same update twice is applying it once |
| AuthorMapper.EmptyPatchIsIdentity | src/main/java/by/iyunski/library/service/mapper/AuthorMapper.java:19-20 | an all-null request changes nothing |
| BookMapper.YearToInteger | src/main/java/by/iyunski/library/service/mapper/BookMapper.java:26-28 | `getValue` of a year in range gives back the integer that `Year.of` makes that year from; with `IntegerToYear` this makes the two conversions inverse on the range `Year.of` accepts |
| BookMapper.IntegerToYear | src/main/java/by/iyunski/library/service/mapper/BookMapper.java:30-32 | `Year.of` of an integer in range is a year whose `getValue` is that integer |
| BookMapper.ToDto | src/main/java/by/iyunski/library/service/mapper/BookMapper.java:17-18 | the DTO keeps the book's id, and its fields read back as a request build the same book without id and author |
| BookMapper.ToEntity | src/main/java/by/iyunski/library/service/mapper/BookMapper.java:23-24 | the new book has no id and no author, and it already holds every field of the request: a partial update with the same request leaves it unchanged |
| BookMapper.ToEntityThenToDto | src/main/java/by/iyunski/library/service/mapper/BookMapper.java:17-24 | a book built from a request maps back to exactly the request's fields, with no id |
| BookMapper.ToDtos | src/main/java/by/iyunski/library/service/impl/AuthorServiceImpl.java:108-110 | one DTO per book, position by position |
| BookMapper.PartialUpdate | src/main/java/by/iyunski/library/service/mapper/BookMapper.java:20-21 | non-null request fields overwrite, null ones keep the book's value, and id and author never change |
| BookMapper.FullUpdateShowsRequest | src/main/java/by/iyunski/library/service/mapper/BookMapper.java:20-21 | after an update with every field present the book keeps its id and shows the request's fields |
| BookMapper.PartialUpdateIdempotent | src/main/java/by/iyunski/library/service/mapper/BookMapper.java:20-21 | applying the same update twice is applying it once |
| Model.Equals | src/main/java/by/iyunski/library/persistence/model/Book.java:49-55 | true exactly for another book with all seven fields equal, author included; false for null and for another class |
| Model.EqualsIsEquivalence | src/main/java/by/iyunski/library/persistence/model/Book.java:50-55 | `equals` is reflexive, symmetric and transitive, and false for null and other classes |
| Model.HashCode | src/main/java/by/iyunski/library/persistence/model/Book.java:57-60 | `Objects.hash` of the seven fields is a 32-bit `int` |
| Model.EqualBooksHashEqually | src/main/java/by/iyunski/library/persistence/model/Book.java:54-59 | equal books have equal hash codes |
| Model.ToString | src/main/java/by/iyunski/library/persistence/model/Book.java:62-72 | the text starts `Book{id=` followed by the id in decimal or `null`, then `, title='`, and ends `'}` |
| Model.ToStringListsFields | src/main/java/by/iyunski/library/persistence/model/Book.java:62-72 | the text holds `, title='` + title, `', genre='` + genre, `', yearOfPublication=` + year, `, numberOfPages=` + pages and `, isbn='` + ISBN, null fields written `null`, in that order and without overlap |
| Model.ToStringOmitsAuthor | src/main/java/by/iyunski/library/persistence/model/Book.java:62-72 | the text of a book does not depend on its author |
| YearValidator.IsValid | src/main/java/by/iyunski/library/service/annotations/YearValidator.java:12-21 | a null year is valid; any other year is valid exactly when it lies between 1 and the current year, both included |
| YearValidator.FutureYearRejected | src/main/java/by/iyunski/library/service/annotations/YearValidator.java:17-20 | the year 2999 is rejected while the current year is earlier |
| YearValidator.CurrentYearAcceptedZeroRejected | src/main/java/by/iyunski/library/service/annotations/YearValidator.java:15-20 | the current year is accepted and the year 0 is rejected |
| Constraints.NotBlankSizedIff | src/main/java/by/iyunski/library/service/dtos/AuthorRequestDto.java:15-17 | a `@NotBlank @Size(max)` field is valid exactly when it is present, has 1 to max characters and some character is above U+0020 |
| AuthorRequest.IsValid | src/main/java/by/iyunski/library/service/dtos/AuthorRequestDto.java:14-25 | an author request is valid exactly when first name, last name and country are each present with 1 to 50 characters and some character above U+0020, and the date of birth is present and before today |
| AuthorRequest.OneBadFieldRejects | src/main/java/by/iyunski/library/service/dtos/AuthorRequestDto.java:14-25 | one invalid field makes the whole request invalid |
| AuthorRequest.ValidFixtureAccepted | src/main/java/by/iyunski/library/service/dtos/AuthorRequestDto.java:14-25 | the request John, Smith, 1950-05-20, England is valid on any later day |
| AuthorRequest.InvalidFixturesRejected | src/main/java/by/iyunski/library/service/dtos/AuthorRequestDto.java:15-22 | a 51-character name, a null name, a null date of birth and the date 2999-01-01 are each rejected |
| AuthorRequest.BlankNamesRejected | src/main/java/by/iyunski/library/service/dtos/AuthorRequestDto.java:15-17 | an empty name and an all-space name are rejected |
| BookRequest.MatchesIff | src/main/java/by/iyunski/library/service/dtos/BookRequestDto.java:29 | a string matches a sequence of character classes exactly when it has one character per class, each in its class |
| BookRequest.IsbnPatternIsShape | src/main/java/by/iyunski/library/service/dtos/BookRequestDto.java:29-30 | `^97[89][0-9]{10}$` accepts exactly the 13-digit strings starting 978 or 979 |
| BookRequest.IsValid | src/main/java/by/iyunski/library/service/dtos/BookRequestDto.java:16-32 | a book request is valid exactly when the title has 1 to 255 characters, the genre 1 to 50, the year lies between 1 and the current year, the pages between 1 and 9999, and the ISBN has the pattern's shape, every field present |
| BookRequest.IsbnValid | src/main/java/by/iyunski/library/service/dtos/BookRequestDto.java:29-31 | an ISBN field is valid exactly when it is present and is 13 digits starting 978 or 979 |
| BookRequest.ValidIsbnAccepted | src/main/java/by/iyunski/library/service/dtos/BookRequestDto.java:29-31 | the fixture ISBN 9781234567890 is accepted |
| BookRequest.InvalidIsbnsRejected | src/test/java/by/iyunski/library/api/controllers/AuthorApiControllerTest.java:1220-1229 | each ISBN the controller tests reject is rejected, null included |
| BookRequest.LongTitleRejected | src/main/java/by/iyunski/library/service/dtos/BookRequestDto.java:16-18 | the 258-character title fixture is rejected |
| BookRequest.FieldFixtures | src/main/java/by/iyunski/library/service/dtos/BookRequestDto.java:16-28 | the title, genre and page-count fixtures are accepted or rejected as the tests expect: null, empty and over-long strings, and 0 or 10000 pages, are rejected |
| BookRequest.YearFixtures | src/main/java/by/iyunski/library/service/dtos/BookRequestDto.java:22-24 | the year 2999 and a null year are rejected |
| IsbnGenerator.ValidRandomIsbn | src/test/java/by/iyunski/library/util/AuthorTestData.java:189-216 | the text built from the array is exactly the digits 9, 7 and 8 + prefixChoice, the nine draws and the check digit, each written as one decimal character; it matches the request's ISBN pattern |
| IsbnGenerator.CheckDigit | src/test/java/by/iyunski/library/util/AuthorTestData.java:204-207 | the check digit lies in 0..9 and completes the weighted sum to a multiple of ten |
| IsbnGenerator.CheckDigitUnique | src/test/java/by/iyunski/library/util/AuthorTestData.java:204-207 | no other digit completes the sum |
| IsbnGenerator.IsbnDigits | src/test/java/by/iyunski/library/util/AuthorTestData.java:191-209 | thirteen digits, the first twelve being 9, 7, the prefix digit and the draws |
| IsbnGenerator.GeneratedText | src/test/java/by/iyunski/library/util/AuthorTestData.java:191-215 | the generated text has the pattern's shape, carries the draws in place and has a checksum divisible by ten |
| IsbnGenerator.EveryValidIsbnGenerated | src/test/java/by/iyunski/library/util/AuthorTestData.java:191-215 | every 13-digit string starting 978 or 979 whose checksum is divisible by ten is the output for some draws |
| IsbnGenerator.DigitsTextChars | src/test/java/by/iyunski/library/util/AuthorTestData.java:211-215 | appending single digits writes one character per digit, each that digit's character |
| IsbnGenerator.DigitsTextRoundTrip | src/test/java/by/iyunski/library/util/AuthorTestData.java:211-215 | reading the text of single digits back gives the digits |
| IsbnGenerator.RunningSums | src/test/java/by/iyunski/library/util/AuthorTestData.java:200-203 | a running sum that adds one weighted digit per step equals the weighted sum of every prefix |
| IsbnGenerator.FixtureChecksumNotValid | src/test/java/by/iyunski/library/util/AuthorTestData.java:40 | the fixture 9781234567890 has the accepted shape but a checksum not divisible by ten, so the pattern checks shape only |
| IsbnGenerator.FixtureDigits | src/test/java/by/iyunski/library/util/AuthorTestData.java:40 | the fixture text is all digits and reads as 9 7 8 1 2 3 4 5 6 7 8 9 0 |
| IsbnGenerator.FixtureWeightedSum | src/test/java/by/iyunski/library/util/AuthorTestData.java:40 | the weighted sum of the fixture's digits is 133, whose check digit would be 7 |
| Text.DecimalRoundTrip | src/test/java/by/iyunski/library/util/AuthorTestData.java:213 | the decimal text of a natural number reads back as that number |

## Left out

- HTTP routing, response codes and API documentation (`AuthorApiController`,
  `DocumentationConfig`) are transport, not service logic.
- Spring Data JPA is replaced by a map store. Flush, lazy loading and cascade
  are not modelled. Deleting an author removes its books with it, because
  they live in its list.
- The database assigns new ids. Here the new author id and the new book id are
  parameters. The author id is required to be unused, and the book id is
  required to be used by no stored book, as a generated primary key is.
- `authorRepository.findById` is a map lookup, written as the function `FindById`.
  `Year.of` within its range is the identity on the year number, written as
  `Calendar.YearOf`. Neither has its own row in "## Model".
- AuthorService.AuthorServiceImpl.SaveNewAuthor: `findAll` without a sort has
  no order guaranteed by JPA. The model takes insertion order, so the new key
  is appended to `order`. `GetAllAuthors` states its result only through
  `order`, so only this listing order depends on that choice.
- AuthorService.AuthorServiceImpl.SaveNewBookOfAuthorByAuthorId: the returned
  DTO carries the new book's id. In the source that depends on the cascade
  having set the id on the same object before `toDto`. `authorRepository.save`
  of an author already stored is a JPA merge, and a merge cascade persists a
  copy of the new book rather than the local `book`. `bookMapper.toDto(book)`
  at AuthorServiceImpl.java:137 then most likely returns a DTO with a null
  id. That depends on the cascade settings of the `Author` mapping, which is
  not part of this model, so the model states the intended id.
- `@Transactional`, `log.warn` and the exception mechanism are framework
  behaviour. The exceptions are the `NotFound` and `NoContent` results.
- The clock is a parameter: the current year for `YearValidator` and the
  current date for `@Past`. `YearValidator` reads `Year.now()` twice. The
  model uses one reading, so a year boundary between the two reads is not
  modelled.
- `Year.of` throws above 999,999,999 and `integerToYear(null)` throws
  `NullPointerException`. Both are excluded by preconditions. Examples are
  YearValidator.IsValid, BookMapper.ToEntity and
  AuthorService.AuthorServiceImpl.SaveNewBookOfAuthorByAuthorId.
- `Author.java` is not part of this model. Its fields are taken from
  `AuthorDto.java:9-13` plus the book list. Its `equals` is taken as object
  identity, and its hash code is the parameter `authorHash` of
  `Model.HashCode`.
- Book objects are updated in place by the service: `partialUpdate` and
  `setAuthor`. They are referenced only from their author's list, so the
  model treats a book as a value and replaces the list element. Aliasing of a
  book object from elsewhere is not captured.
- Strings are sequences of Unicode scalar values rather than UTF-16 code
  units. Lengths differ only for characters outside the Basic Multilingual
  Plane. `Model.StringHash` differs for those characters too: Java hashes
  their two UTF-16 surrogates, the model hashes one scalar value.
- `LocalDate` is three integers in lexicographic order. Calendar validity of
  a date (month and day ranges) is not checked.
- Java `Long` and `Integer` widths are not modelled, except in
  `Model.HashCode`, where 32-bit wrap-around is written out.
- The random-entity builders of the test data (random authors and books) are
  fixtures, not logic. The random draws of `getValidRandomIsbn` are its
  parameters.
