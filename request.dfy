/** The values a JSON request body can carry in one field, as far as the routes test them. */
module Request {

  /** A missing field, a string, or any other JSON value (number, boolean, object, ...). */
  datatype Field = Absent | Str(s: string) | Other(truthy: bool)

  /** JavaScript truthiness: a missing field and the empty string are falsy. */
  predicate Truthy(f: Field) {
    match f
    case Absent => false
    case Str(s) => s != []
    case Other(t) => t
  }

  /** `!f || typeof f !== 'string'` rejects the field; this is its negation. */
  predicate NonEmptyString(f: Field) {
    Truthy(f) && f.Str?
  }

  /** The fields the checks accept are exactly the non-empty strings. */
  lemma NonEmptyStringIff(f: Field)
    ensures NonEmptyString(f) <==> exists s :: f == Str(s) && s != []
  {
    if NonEmptyString(f) {
      assert f == Str(f.s);
    }
  }
}
