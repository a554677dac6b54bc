/** The Jakarta Bean Validation constraints the request records use, each as
    a predicate on a possibly-null field. As in Bean Validation, every
    constraint except the three "Not" ones accepts null. */
module Constraints {
  import opened Wrappers
  import opened Calendar

  /** `@NotNull` */
  predicate NotNull<T>(x: Option<T>) {
    x.Some?
  }

  /** `@NotEmpty` on a string: not null and of length at least one. */
  predicate NotEmpty(s: Option<string>) {
    s.Some? && |s.value| > 0
  }

  /** A character that `String.trim()` removes: code point at most U+0020. */
  predicate IsTrimmed(c: char) {
    c <= ' '
  }

  /** `@NotBlank`: not null, and something is left after trimming. */
  predicate NotBlank(s: Option<string>) {
    s.Some? && exists i :: 0 <= i < |s.value| && !IsTrimmed(s.value[i])
  }

  /** `@Size(max = max)` on a string. */
  predicate SizeAtMost(s: Option<string>, max: nat) {
    s.None? || |s.value| <= max
  }

  /** `@Min(min)` */
  predicate AtLeast(x: Option<int>, min: int) {
    x.None? || min <= x.value
  }

  /** `@Max(max)` */
  predicate AtMost(x: Option<int>, max: int) {
    x.None? || x.value <= max
  }

  /** `@Past` on a `LocalDate`: strictly before `today`. */
  predicate InPast(d: Option<Date>, today: Date) {
    d.None? || IsBefore(d.value, today)
  }

  /** A field with `@NotBlank @Size(max = max)`: present, not blank, at most
      `max` characters. */
  lemma NotBlankSizedIff(s: Option<string>, max: nat)
    ensures NotBlank(s) && SizeAtMost(s, max) <==>
              s.Some? && 1 <= |s.value| <= max && exists i :: 0 <= i < |s.value| && s.value[i] > ' '
  {
  }
}
