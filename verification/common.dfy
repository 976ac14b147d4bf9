/** Small shared vocabulary: an optional value standing in for a nullable
    reference, and the lower-casing used by every case-insensitive name
    comparison of the loader. */
module Common {

  /** A value or nothing; `None` plays the part of a null reference. */
  datatype Option<+T> = None | Some(value: T)

  /** Lower-cases one ASCII letter and leaves every other character alone.
      `ToLowerInvariant` also folds non-ASCII letters; that is not modelled. */
  function LowerChar(c: char): char
  {
    if 'A' <= c <= 'Z' then (c as int + 32) as char else c
  }

  /** Lower-cases a whole name, character by character. */
  function Lower(s: string): string
  {
    seq(|s|, i requires 0 <= i < |s| => LowerChar(s[i]))
  }
}
