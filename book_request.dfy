/** `BookRequestDto`: the payload of book create and update requests and the
    constraints declared on its fields, including the ISBN regular expression
    `^97[89][0-9]{10}$`. `now` stands for `Year.now()`. */
module BookRequest {
  import opened Wrappers
  import opened Calendar
  import opened Constraints
  import opened Text
  import YearValidator

  const MaxTitleLength: nat := 255
  const MaxGenreLength: nat := 50
  const MinPages: int := 1
  const MaxPages: int := 9999

  datatype BookRequestDto = BookRequestDto(
    title: Option<string>,
    genre: Option<string>,
    yearOfPublication: Option<int>,
    numberOfPages: Option<int>,
    isbn: Option<string>)

  /** The ISBN pattern as its sequence of character classes: it is anchored
      at both ends and has no alternation or repetition of variable length,
      so a string matches it exactly when the i-th character is in the
      i-th class and the lengths agree. */
  const DigitClass: set<char> := {'0', '1', '2', '3', '4', '5', '6', '7', '8', '9'}
  const IsbnPattern: seq<set<char>> :=
    [{'9'}, {'7'}, {'8', '9'},
     DigitClass, DigitClass, DigitClass, DigitClass, DigitClass,
     DigitClass, DigitClass, DigitClass, DigitClass, DigitClass]

  /** Left-to-right matching of `s` against a sequence of character classes. */
  predicate Matches(s: string, classes: seq<set<char>>)
    decreases |classes|
  {
    if |classes| == 0 then |s| == 0
    else |s| > 0 && s[0] in classes[0] && Matches(s[1..], classes[1..])
  }

  /** Matching a class sequence is position-wise membership. */
  lemma {:induction false} MatchesIff(s: string, classes: seq<set<char>>)
    decreases |classes|
    ensures Matches(s, classes) <==>
              |s| == |classes| && forall i :: 0 <= i < |s| ==> s[i] in classes[i]
  {
    if |classes| > 0 && |s| > 0 {
      MatchesIff(s[1..], classes[1..]);
      if |s| == |classes| && forall i :: 0 <= i < |s| ==> s[i] in classes[i] {
        assert forall i :: 0 <= i < |s| - 1 ==> s[1..][i] in classes[1..][i] by {
          forall i | 0 <= i < |s| - 1 ensures s[1..][i] in classes[1..][i] {
            assert s[1..][i] == s[i + 1];
          }
        }
      }
    }
  }

  /** The shape the pattern accepts: 13 decimal digits starting 978 or 979. */
  predicate IsbnShape(s: string) {
    && |s| == 13
    && s[0] == '9' && s[1] == '7' && (s[2] == '8' || s[2] == '9')
    && forall i :: 3 <= i < 13 ==> IsDigit(s[i])
  }

  lemma IsbnPatternIsShape(s: string)
    ensures Matches(s, IsbnPattern) <==> IsbnShape(s)
  {
    MatchesIff(s, IsbnPattern);
    assert forall i :: 3 <= i < |IsbnPattern| ==> IsbnPattern[i] == DigitClass;
    assert forall c :: c in DigitClass <==> IsDigit(c);
  }

  /** `@Pattern(regexp = "^97[89][0-9]{10}$")`; null passes, as with every pattern. */
  predicate IsbnPatternValid(s: Option<string>) {
    s.None? || Matches(s.value, IsbnPattern)
  }

  predicate TitleValid(s: Option<string>) {
    SizeAtMost(s, MaxTitleLength) && NotEmpty(s)
  }

  predicate GenreValid(s: Option<string>) {
    SizeAtMost(s, MaxGenreLength) && NotEmpty(s)
  }

  predicate YearValid(y: Option<int>, now: Year)
    requires y.Some? ==> y.value <= MaxYear
  {
    NotNull(y) && YearValidator.IsValid(y, now)
  }

  predicate PagesValid(p: Option<int>) {
    NotNull(p) && AtLeast(p, MinPages) && AtMost(p, MaxPages)
  }

  /** `@NotNull` and the pattern: present, with the pattern's shape. */
  predicate IsbnValid(s: Option<string>): (ok: bool)
    ensures ok <==> s.Some? && IsbnShape(s.value)
  {
    if s.Some? then
      IsbnPatternIsShape(s.value);
      IsbnPatternValid(s) && NotNull(s)
    else IsbnPatternValid(s) && NotNull(s)
  }

  /** The request passes validation exactly when every field does, which in
      plain terms is the ranges below with every field present. A year above
      `MaxYear` makes `Year.of` throw inside the validator, so it is
      excluded. */
  predicate IsValid(r: BookRequestDto, now: Year): (ok: bool)
    requires r.yearOfPublication.Some? ==> r.yearOfPublication.value <= MaxYear
    ensures ok <==>
              && r.title.Some? && 1 <= |r.title.value| <= MaxTitleLength
              && r.genre.Some? && 1 <= |r.genre.value| <= MaxGenreLength
              && r.yearOfPublication.Some? && 1 <= r.yearOfPublication.value <= now.value
              && r.numberOfPages.Some? && MinPages <= r.numberOfPages.value <= MaxPages
              && r.isbn.Some? && IsbnShape(r.isbn.value)
  {
    && TitleValid(r.title)
    && GenreValid(r.genre)
    && YearValid(r.yearOfPublication, now)
    && PagesValid(r.numberOfPages)
    && IsbnValid(r.isbn)
  }

  const ValidIsbn: string := "9781234567890"
  const ValidTitle: string := "Best Novell"
  const ValidGenre: string := "Science Fiction"
  const InvalidTitle: string := "Invalid titletitletitletitletitletitletitletitletitletitletitletitletitletitletitletitletitletitletitletitletitletitletitletitletitletitletitletitletitletitletitletitletitletitletitletitletitletitletitletitletitletitletitletitletitletitletitletitletitletitle"
  const InvalidLengthGenre: string := "Invalidnamenamenamenamenamenamenamenamenamenamename"

  /** The pattern checks shape only: the fixture ISBN passes it. */
  lemma ValidIsbnAccepted()
    ensures IsbnValid(Some(ValidIsbn))
  {
  }

  /** Each ISBN the controller tests reject fails the pattern or `@NotNull`. */
  lemma InvalidIsbnsRejected()
    ensures !IsbnValid(Some(""))
    ensures !IsbnValid(Some(" "))
    ensures !IsbnValid(Some("111 22 33"))
    ensures !IsbnValid(Some("11one2233"))
    ensures !IsbnValid(Some("12345678901234567890123456"))
    ensures !IsbnValid(None)
    ensures !IsbnValid(Some("1234567890123"))
    ensures !IsbnValid(Some("isbn654832"))
  {
    IsbnPatternIsShape("");
    IsbnPatternIsShape(" ");
    IsbnPatternIsShape("111 22 33");
    IsbnPatternIsShape("11one2233");
    IsbnPatternIsShape("12345678901234567890123456");
    IsbnPatternIsShape("1234567890123");
    IsbnPatternIsShape("isbn654832");
  }

  /** The 258-character title fixture is rejected. */
  lemma LongTitleRejected()
    ensures |InvalidTitle| == 258 && !TitleValid(Some(InvalidTitle))
  {
  }

  /** Title, genre and page-count fixtures of the controller tests. */
  lemma FieldFixtures()
    ensures TitleValid(Some(ValidTitle)) && GenreValid(Some(ValidGenre))
    ensures !TitleValid(None) && !TitleValid(Some(""))
    ensures |InvalidLengthGenre| == 51 && !GenreValid(Some(InvalidLengthGenre))
    ensures !GenreValid(None) && !GenreValid(Some(""))
    ensures PagesValid(Some(100))
    ensures !PagesValid(Some(0)) && !PagesValid(Some(10000)) && !PagesValid(None)
  {
  }

  /** A future year and a null year are rejected. */
  lemma YearFixtures(now: Year)
    requires now.value < 2999
    ensures !YearValid(Some(2999), now)
    ensures !YearValid(None, now)
  {
  }
}
