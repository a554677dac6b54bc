/** `YearValidator`: the `@YearValidation` rule for a year of publication.
    `Year.now()` is the parameter `now`. */
module YearValidator {
  import opened Wrappers
  import opened Calendar

  /** `isValid(year)`: null passes (`@NotNull` is checked separately); a year
      below 1 fails; a year before `now` or equal to it passes. `Year.of(year)`
      throws above `MaxYear`, so such years are excluded. */
  function IsValid(year: Option<int>, now: Year): (ok: bool)
    requires year.Some? ==> year.value <= MaxYear
    ensures year.None? ==> ok
    ensures year.Some? ==> (ok <==> 1 <= year.value <= now.value)
  {
    if year.None? then true
    else if year.value < 1 then false
    else if IsAfter(now, YearOf(year.value)) then true
    else now == YearOf(year.value)
  }

  /** 2999, a year in the future of any plausible clock, is rejected. */
  lemma FutureYearRejected(now: Year)
    requires now.value < 2999
    ensures !IsValid(Some(2999), now)
  {
  }

  /** The current year itself is accepted; year 0 is not. */
  lemma CurrentYearAcceptedZeroRejected(now: Year)
    requires 1 <= now.value <= MaxYear
    ensures IsValid(Some(now.value), now)
    ensures !IsValid(Some(0), now)
  {
  }
}
