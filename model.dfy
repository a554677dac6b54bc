/** The persisted entities. An `Author` is an object whose fields are updated
    in place and which owns an ordered list of books; a `Book` is a record of
    its fields, replaced as a whole wherever the source mutates it. */
module Model {
  import opened Wrappers
  import opened Calendar
  import opened Text

  /** The author entity: `id` is null until the store assigns one. */
  class Author {
    var id: Option<int>
    var firstName: Option<string>
    var lastName: Option<string>
    var dateOfBirth: Option<Date>
    var country: Option<string>
    var books: seq<Book>

    /** `new Author()`: every field unset and no books. */
    constructor ()
      ensures Row() == AuthorRow(None, None, None, None, None, [])
    {
      id, firstName, lastName, dateOfBirth, country := None, None, None, None, None;
      books := [];
    }

    /** The author's fields as a value. */
    ghost function Row(): AuthorRow
      reads this
    {
      AuthorRow(id, firstName, lastName, dateOfBirth, country, books)
    }
  }

  datatype AuthorRow = AuthorRow(
    id: Option<int>,
    firstName: Option<string>,
    lastName: Option<string>,
    dateOfBirth: Option<Date>,
    country: Option<string>,
    books: seq<Book>)

  /** The book entity. The year of publication is never null: the only way to
      build a book (`toEntity`) converts a non-null year. The author reference
      is null until the service sets it. */
  datatype Book = Book(
    id: Option<int>,
    title: Option<string>,
    genre: Option<string>,
    yearOfPublication: Year,
    numberOfPages: Option<int>,
    isbn: Option<string>,
    author: Author?)

  /** The argument of `Book.equals(Object)`. */
  datatype JavaObject = Null | BookObject(book: Book) | OtherClass

  /** `Book.equals`: the same object, or another book whose seven fields
      (author included) are all equal. */
  function Equals(b: Book, o: JavaObject): (eq: bool)
    ensures eq <==> o == BookObject(b)
  {
    if o == BookObject(b) then true
    else if o.Null? || o.OtherClass? then false
    else
      var other := o.book;
      && b.id == other.id && b.title == other.title && b.genre == other.genre
      && b.yearOfPublication == other.yearOfPublication
      && b.numberOfPages == other.numberOfPages && b.isbn == other.isbn
      && b.author == other.author
  }

  /** `equals` is an equivalence on books. */
  lemma EqualsIsEquivalence(a: Book, b: Book, c: Book)
    ensures Equals(a, BookObject(a))
    ensures Equals(a, BookObject(b)) <==> Equals(b, BookObject(a))
    ensures Equals(a, BookObject(b)) && Equals(b, BookObject(c)) ==> Equals(a, BookObject(c))
    ensures !Equals(a, Null) && !Equals(a, OtherClass)
  {
  }

  const Int32Modulus: int := 0x1_0000_0000

  predicate IsInt32(x: int) {
    -0x8000_0000 <= x < 0x8000_0000
  }

  predicate IsInt64(x: int) {
    -0x8000_0000_0000_0000 <= x < 0x8000_0000_0000_0000
  }

  /** Java's narrowing of an integer to `int`: keep the low 32 bits, signed. */
  function ToInt32(x: int): (r: int)
    ensures IsInt32(r) && (r - x) % Int32Modulus == 0
  {
    var m := x % Int32Modulus;
    if m < 0x8000_0000 then m else m - Int32Modulus
  }

  /** `String.hashCode`: h = 31 * h + c over the characters, in `int` arithmetic. */
  function StringHash(s: string): (h: int)
    ensures IsInt32(h)
  {
    if |s| == 0 then 0 else ToInt32(31 * StringHash(s[..|s| - 1]) + s[|s| - 1] as int)
  }

  /** `Long.hashCode(v)`: `(int) (v ^ (v >>> 32))`. */
  function LongHash(v: int): (h: int)
    requires IsInt64(v)
    ensures IsInt32(h)
  {
    var u := (v % 0x1_0000_0000_0000_0000) as bv64;
    ToInt32(((u ^ (u >> 32)) & 0xFFFF_FFFF) as int)
  }

  /** `Objects.hash(values...)`: 31 * result + hash over the values, from 1. */
  function ObjectsHash(hashes: seq<int>): (h: int)
    ensures IsInt32(h)
  {
    if |hashes| == 0 then 1 else ToInt32(31 * ObjectsHash(hashes[..|hashes| - 1]) + hashes[|hashes| - 1])
  }

  function NullableHash<T>(x: Option<T>, hash: T -> int): int {
    if x.Some? then hash(x.value) else 0
  }

  /** `Book.hashCode`: `Objects.hash` of the seven fields `equals` compares.
      `Year.hashCode` and `Integer.hashCode` are the value itself; the hash of
      the author object is the parameter `authorHash`. */
  function HashCode(b: Book, authorHash: int): (h: int)
    requires b.id.Some? ==> IsInt64(b.id.value)
    ensures IsInt32(h)
  {
    ObjectsHash([
      if b.id.Some? then LongHash(b.id.value) else 0,
      NullableHash(b.title, StringHash),
      NullableHash(b.genre, StringHash),
      b.yearOfPublication.value,
      NullableHash(b.numberOfPages, (p: int) => p),
      NullableHash(b.isbn, StringHash),
      if b.author == null then 0 else authorHash])
  }

  /** Equal books hash alike: both sides of `equals` hash the same fields. */
  lemma EqualBooksHashEqually(a: Book, b: Book, authorHash: int)
    requires a.id.Some? ==> IsInt64(a.id.value)
    requires Equals(a, BookObject(b))
    ensures HashCode(a, authorHash) == HashCode(b, authorHash)
  {
  }

  /** A nullable number in string concatenation: "null" or its decimal text. */
  function DecimalOrNull(x: Option<int>): string {
    if x.Some? then DecimalString(x.value) else "null"
  }

  /** `s` holds `seg` starting at position `k`. */
  predicate OccursAt(s: string, seg: string, k: int) {
    0 <= k && k + |seg| <= |s| && s[k..k + |seg|] == seg
  }

  /** A middle part of a concatenation occurs where the part before it ends. */
  lemma OccursInConcat(front: string, seg: string, back: string)
    ensures OccursAt(front + seg + back, seg, |front|)
  {
    assert (front + seg + back)[|front|..|front| + |seg|] == seg;
  }

  /** The layout of the `toString` text over any parts: the five middle
      parts occur in order, each where the one before it ends. */
  lemma Layout(s: string, lead: string, t: string, g: string, y: string, p: string, i: string, close: string)
    requires s == lead + t + (g + y + p + i) + close
    ensures exists k1, k2, k3, k4, k5 ::
              && OccursAt(s, t, k1) && OccursAt(s, g, k2) && OccursAt(s, y, k3)
              && OccursAt(s, p, k4) && OccursAt(s, i, k5)
              && k1 + |t| <= k2 && k2 + |g| <= k3 && k3 + |y| <= k4 && k4 + |p| <= k5
  {
    assert s == lead + t + g + y + p + i + close;
    OccursInConcat(lead, t, g + y + p + i + close);
    OccursInConcat(lead + t, g, y + p + i + close);
    OccursInConcat(lead + t + g, y, p + i + close);
    OccursInConcat(lead + t + g + y, p, i + close);
    OccursInConcat(lead + t + g + y + p, i, close);
    var k1 := |lead|;
    assert OccursAt(s, t, k1) && OccursAt(s, g, k1 + |t|) && OccursAt(s, y, k1 + |t| + |g|);
    assert OccursAt(s, p, k1 + |t| + |g| + |y|) && OccursAt(s, i, k1 + |t| + |g| + |y| + |p|);
  }

  /** A tag opening the part after `lead` extends `lead` to a prefix, and
      the closing part ends the text. */
  lemma PrefixAndSuffixOfConcat(lead: string, tag: string, field: string, middle: string, close: string)
    ensures lead + tag <= lead + (tag + field) + middle + close
    ensures var s := lead + (tag + field) + middle + close;
              |s| >= |close| && s[|s| - |close|..] == close
  {
    var s := lead + (tag + field) + middle + close;
    assert s == (lead + tag) + (field + middle + close);
    assert s == (lead + (tag + field) + middle) + close;
  }

  /** A nullable string in string concatenation: "null" or the string itself. */
  function TextOrNull(x: Option<string>): string {
    if x.Some? then x.value else "null"
  }

  /** The opening of `Book.toString`, up to the id. */
  function Lead(b: Book): string {
    "Book{id=" + DecimalOrNull(b.id)
  }

  /** The labelled fields of `Book.toString`, each as its label and the
      field's text. */
  function TitleSegment(b: Book): string {
    ", title='" + TextOrNull(b.title)
  }

  function GenreSegment(b: Book): string {
    "', genre='" + TextOrNull(b.genre)
  }

  function YearSegment(b: Book): string {
    "', yearOfPublication=" + DecimalString(b.yearOfPublication.value)
  }

  function PagesSegment(b: Book): string {
    ", numberOfPages=" + DecimalOrNull(b.numberOfPages)
  }

  function IsbnSegment(b: Book): string {
    ", isbn='" + TextOrNull(b.isbn)
  }

  /** The fields after the title, in the order `toString` writes them. */
  function LaterSegments(b: Book): string {
    GenreSegment(b) + YearSegment(b) + PagesSegment(b) + IsbnSegment(b)
  }

  /** `Book.toString`: every field but the author. The text opens with the
      id in decimal, or `null` for a book not yet stored, and closes with the
      quoted ISBN. */
  function ToString(b: Book): (s: string)
    ensures b.id.Some? ==> "Book{id=" + DecimalString(b.id.value) + ", title='" <= s
    ensures b.id.None? ==> "Book{id=null, title='" <= s
    ensures |s| >= 2 && s[|s| - 2..] == "'}"
  {
    assert b.id.Some? ==> Lead(b) == "Book{id=" + DecimalString(b.id.value);
    assert b.id.None? ==> Lead(b) == "Book{id=null";
    PrefixAndSuffixOfConcat(Lead(b), ", title='", TextOrNull(b.title), LaterSegments(b), "'}");
    Lead(b) + TitleSegment(b) + LaterSegments(b) + "'}"
  }

  /** The text lists title, genre, year, page count and ISBN, each after its
      label, in that order and without overlap. */
  lemma ToStringListsFields(b: Book)
    ensures exists k1, k2, k3, k4, k5 ::
              && OccursAt(ToString(b), TitleSegment(b), k1)
              && OccursAt(ToString(b), GenreSegment(b), k2)
              && OccursAt(ToString(b), YearSegment(b), k3)
              && OccursAt(ToString(b), PagesSegment(b), k4)
              && OccursAt(ToString(b), IsbnSegment(b), k5)
              && k1 + |TitleSegment(b)| <= k2 && k2 + |GenreSegment(b)| <= k3
              && k3 + |YearSegment(b)| <= k4 && k4 + |PagesSegment(b)| <= k5
  {
    Layout(ToString(b), Lead(b), TitleSegment(b), GenreSegment(b), YearSegment(b),
           PagesSegment(b), IsbnSegment(b), "'}");
  }

  /** The text of a book does not depend on its author. */
  lemma ToStringOmitsAuthor(b: Book, other: Author?)
    ensures ToString(b) == ToString(b.(author := other))
  {
  }
}
