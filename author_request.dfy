/** `AuthorRequestDto`: the payload of author create and update requests and
    the constraints declared on its fields. `today` stands for the clock
    behind `@Past`. */
module AuthorRequest {
  import opened Wrappers
  import opened Calendar
  import opened Constraints

  const MaxNameLength: nat := 50

  datatype AuthorRequestDto = AuthorRequestDto(
    firstName: Option<string>,
    lastName: Option<string>,
    dateOfBirth: Option<Date>,
    country: Option<string>)

  /** `@NotBlank @Size(max = 50)`, shared by first name, last name and country. */
  predicate NameValid(s: Option<string>) {
    NotBlank(s) && SizeAtMost(s, MaxNameLength)
  }

  /** `@NotNull @Past` on the date of birth. */
  predicate DateOfBirthValid(d: Option<Date>, today: Date) {
    NotNull(d) && InPast(d, today)
  }

  /** The request passes validation exactly when every field does: each name
      present with 1 to 50 characters, one of them above U+0020, and the date
      of birth present and before today. */
  predicate IsValid(r: AuthorRequestDto, today: Date): (ok: bool)
    ensures ok <==>
              && r.firstName.Some? && 1 <= |r.firstName.value| <= MaxNameLength
              && (exists i :: 0 <= i < |r.firstName.value| && r.firstName.value[i] > ' ')
              && r.lastName.Some? && 1 <= |r.lastName.value| <= MaxNameLength
              && (exists i :: 0 <= i < |r.lastName.value| && r.lastName.value[i] > ' ')
              && r.dateOfBirth.Some? && IsBefore(r.dateOfBirth.value, today)
              && r.country.Some? && 1 <= |r.country.value| <= MaxNameLength
              && (exists i :: 0 <= i < |r.country.value| && r.country.value[i] > ' ')
  {
    && NameValid(r.firstName)
    && NameValid(r.lastName)
    && DateOfBirthValid(r.dateOfBirth, today)
    && NameValid(r.country)
  }

  /** A field of this request is rejected, so the whole request is. */
  lemma OneBadFieldRejects(r: AuthorRequestDto, today: Date)
    requires !NameValid(r.firstName) || !NameValid(r.lastName)
          || !DateOfBirthValid(r.dateOfBirth, today) || !NameValid(r.country)
    ensures !IsValid(r, today)
  {
  }

  const ValidFirstName: string := "John"
  const ValidLastName: string := "Smith"
  const ValidDateOfBirth: Date := Date(1950, 5, 20)
  const ValidCountry: string := "England"
  const InvalidLengthString: string := "Invalidnamenamenamenamenamenamenamenamenamenamename"
  const DateInFuture: Date := Date(2999, 1, 1)

  /** The fixture request is valid on any day after its date of birth. */
  lemma ValidFixtureAccepted(today: Date)
    requires IsBefore(ValidDateOfBirth, today)
    ensures IsValid(AuthorRequestDto(Some(ValidFirstName), Some(ValidLastName),
                                     Some(ValidDateOfBirth), Some(ValidCountry)), today)
  {
    assert !IsTrimmed(ValidFirstName[0]);
    assert !IsTrimmed(ValidLastName[0]);
    assert !IsTrimmed(ValidCountry[0]);
  }

  /** A 51-character name, a null name and a future date of birth are each rejected. */
  lemma InvalidFixturesRejected(today: Date)
    requires IsBefore(today, DateInFuture)
    ensures |InvalidLengthString| == 51 && !NameValid(Some(InvalidLengthString))
    ensures !NameValid(None)
    ensures !DateOfBirthValid(Some(DateInFuture), today)
    ensures !DateOfBirthValid(None, today)
  {
  }

  /** Blank means only characters that trimming removes. */
  lemma BlankNamesRejected()
    ensures !NameValid(Some(""))
    ensures !NameValid(Some("   "))
  {
  }
}
