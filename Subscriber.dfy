/**
  The Subscriber record and the field constraints declared on it: Name is
  required and at most 20 characters long; Email is required and must match
  the pattern of module EmailPattern.
 */
module Subscribers {
  import opened Wrappers
  import opened NullableStrings
  import opened EmailPattern

  /** Id is assigned by the store; Name and Email may be null until validated. */
  datatype Subscriber = Subscriber(id: NullableString, name: NullableString, email: NullableString)

  const NameMaxLength: nat := 20

  /** [Required] on a string: not null, not empty and not only white space. */
  predicate Required(s: NullableString) {
    !IsNullOrWhiteSpace(s)
  }

  /** [StringLength(max)]: a null string passes; otherwise at most max characters, inclusive. */
  predicate WithinLength(s: NullableString, max: nat) {
    s.None? || |s.value| <= max
  }

  /** [RegularExpression(...)] with the email pattern: null and "" pass; otherwise the whole string must match. */
  predicate MatchesEmailAttribute(s: NullableString) {
    IsNullOrEmpty(s) || IsEmailShape(s.value)
  }

  predicate ValidName(name: NullableString) {
    Required(name) && WithinLength(name, NameMaxLength)
  }

  predicate ValidEmail(email: NullableString) {
    Required(email) && MatchesEmailAttribute(email)
  }

  predicate IsValid(s: Subscriber) {
    ValidName(s.name) && ValidEmail(s.email)
  }

  /**
    An email is valid exactly when it is present and in the language of the
    pattern: the pattern alone already rules out white space, and [Required]
    rules out the null and empty strings the attribute lets through.
   */
  lemma ValidEmailIffPattern(email: NullableString)
    ensures ValidEmail(email) <==> email.Some? && MatchesPattern(email.value)
  {
    if email.Some? {
      EmailShapeIsPattern(email.value);
      if IsEmailShape(email.value) {
        AcceptedCharacters(email.value);
        AcceptedHasOneAt(email.value);
        assert !IsWhiteSpace(email.value[0]);
      }
    }
  }

  /** A null or empty email makes a subscriber invalid, whatever the pattern says. */
  lemma MissingEmailIsInvalid(s: Subscriber)
    requires IsNullOrEmpty(s.email)
    ensures !IsValid(s)
  {
  }

  /**
    The name limit is inclusive: a name with a visible character is valid at
    exactly 20 characters and invalid from 21 on.
   */
  lemma NameLimitIsInclusive(name: string, i: nat)
    requires i < |name| && !IsWhiteSpace(name[i])
    ensures ValidName(Some(name)) <==> |name| <= 20
  {
  }
}
