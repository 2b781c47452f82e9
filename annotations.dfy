/**
 * The data-annotation attributes the two request payloads carry, as
 * predicates on a nullable string, and the limits they are given.
 */
module Annotations {
  import opened Wrappers
  import opened Text

  /** `[StringLength(200, MinimumLength = 3)]` on a title. */
  const TitleMin: nat := 3
  const TitleMax: nat := 200
  /** `[StringLength(1000)]` on a description. */
  const DescriptionMax: nat := 1000

  /** One failing attribute, reported against the property it guards. */
  datatype Violation =
    | TitleRequired      // [Required] on Title failed
    | TitleLength        // [StringLength(200, MinimumLength = 3)] on Title failed
    | DescriptionLength  // [StringLength(1000)] on Description failed

  /** `[Required]` with empty strings not allowed: not null and not blank. */
  predicate RequiredHolds(s: Option<string>) {
    !IsNullOrWhiteSpace(s)
  }

  /** `[StringLength(max, MinimumLength = min)]`: a null value passes. */
  predicate StringLengthHolds(s: Option<string>, min: nat, max: nat) {
    s.None? || min <= Utf16Length(s.value) <= max
  }

  /** The violation `v` if `ok` fails, no violation otherwise. */
  function Check(ok: bool, v: Violation): set<Violation> {
    if ok then {} else {v}
  }
}
