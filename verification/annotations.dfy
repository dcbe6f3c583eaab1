/**
 * The validation attributes of System.ComponentModel.DataAnnotations that
 * the Car and User records carry, as predicates on the property value.
 * Each holds exactly when the attribute's IsValid accepts the value.
 */
module Annotations {
  import opened Primitives

  /**
   * `char.IsWhiteSpace`: U+0009..U+000D, U+0085 and the Unicode space,
   * line and paragraph separators.
   */
  predicate IsWhiteSpace(c: char) {
    var n := c as int;
    || 0x09 <= n <= 0x0D
    || n == 0x20 || n == 0x85 || n == 0xA0 || n == 0x1680
    || 0x2000 <= n <= 0x200A
    || n == 0x2028 || n == 0x2029 || n == 0x202F || n == 0x205F || n == 0x3000
  }

  /**
   * `[Required]` on a string (empty strings not allowed): the value is not
   * null, not empty and not made of white space only. A null string and an
   * empty one are the same here: both fail.
   */
  predicate Required(s: string) {
    exists i :: 0 <= i < |s| && !IsWhiteSpace(s[i])
  }

  /** `[StringLength(max)]`: at most `max` UTF-16 code units. */
  predicate StringLength(s: string, max: nat) {
    Utf16Length(s) <= max
  }

  /** `[MinLength(min)]` on a string: at least `min` UTF-16 code units. */
  predicate MinLength(s: string, min: nat) {
    Utf16Length(s) >= min
  }

  /**
   * `[EmailAddress]`: no carriage return or line feed, and exactly one '@',
   * which is neither the first nor the last character.
   */
  predicate EmailAddress(s: string) {
    && (forall i :: 0 <= i < |s| ==> s[i] != '\r' && s[i] != '\n')
    && exists k :: 0 < k < |s| - 1 && s[k] == '@' &&
         forall j :: 0 <= j < |s| && j != k ==> s[j] != '@'
  }

  /**
   * `[RegularExpression("A|B")]`: the pattern must match the whole value;
   * an empty value is accepted (Required is what rejects it).
   */
  predicate MatchesEither(s: string, a: string, b: string) {
    s == [] || s == a || s == b
  }

  /** A model-validation failure: the property and its error message. */
  datatype FieldError = FieldError(field: string, message: string)

  /** The error one attribute adds to the model state: none when it passes. */
  function Check(ok: bool, field: string, message: string): (errs: seq<FieldError>)
    ensures errs == [] <==> ok
    ensures forall e :: e in errs ==> e.field == field
  {
    if ok then [] else [FieldError(field, message)]
  }
}
