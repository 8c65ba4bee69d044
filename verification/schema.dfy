/**
 * The Mongoose validators the submission schemas share: `required` on a string
 * path, and `maxlength`, which measures a string by JavaScript's `length`.
 */
module Schema {
  import opened Wrappers
  import opened Text

  /** A `required` string path: set and not the empty string. */
  predicate Given(v: Option<string>) {
    v.Some? && v.value != ""
  }

  /** `maxlength: max`: at most `max` UTF-16 code units. */
  predicate WithinMaxLength(s: string, max: nat) {
    Utf16Length(s) <= max
  }
}
