/**
 * The two data annotations the entities and transfer objects carry, read as
 * the validator reads them.
 */
module Annotations {
  import opened Wrappers
  import opened Text

  /** Longest name any city, point of interest or transfer object accepts. */
  const NameMaxLength: nat := 50

  /** Longest description any city, point of interest or transfer object accepts. */
  const DescriptionMaxLength: nat := 200

  /** `[Required]` on a string: null, empty and all-white-space values fail. */
  predicate Required(s: Option<string>) {
    !IsNullOrWhiteSpace(s)
  }

  /** `[MaxLength(n)]` on a string: null passes, otherwise at most `n` characters. */
  predicate MaxLength(s: Option<string>, n: nat) {
    s.None? || |s.value| <= n
  }

  /** The checks shared by every `Name` member: `[Required] [MaxLength(50)]`. */
  predicate ValidName(name: Option<string>) {
    Required(name) && MaxLength(name, NameMaxLength)
  }

  /** The check shared by every `Description` member: `[MaxLength(200)]`. */
  predicate ValidDescription(description: Option<string>) {
    MaxLength(description, DescriptionMaxLength)
  }
}
