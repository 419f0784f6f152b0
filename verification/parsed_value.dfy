/**
 * The part of the value parser that the locale loader and the schema unifier
 * observe. The parser's grammar is not part of this model: a parsed value is
 * represented by the interpolation keys it references, which is all that
 * `get_keys` and `get_keys_inner` expose to the unifier.
 */
module ParsedValues {
  import opened Results

  /**
   * The plural taxonomy a plural or range selector uses (cardinal, ordinal, or
   * the number type of a range). Only its identity matters here.
   */
  type PluralType = string

  /** A named slot a translation value requires its caller to fill. */
  datatype InterpolateKey =
    | Variable(name: string)
    | Component(name: string)
    | Count(pluralType: PluralType)

  /**
   * A parsed translation value, seen through its interpolation keys: `None`
   * for a plain value, `Some(keys)` for one that `get_keys` reports keys for
   * (the set may be empty).
   */
  datatype ParsedValue = ParsedValue(interpolateKeys: Option<set<InterpolateKey>>)

  /** `ParsedValue::get_keys`: the keys the value references, if any. */
  function GetKeys(v: ParsedValue): Option<set<InterpolateKey>>
  {
    v.interpolateKeys
  }

  /**
   * `ParsedValue::get_keys_inner`: records the value's keys into an
   * accumulator. A value whose keys are `None` leaves the accumulator as it
   * is; otherwise the accumulator becomes (or stays) `Some` and gains every
   * key of the value.
   */
  function GetKeysInner(v: ParsedValue, acc: Option<set<InterpolateKey>>): Option<set<InterpolateKey>>
  {
    match GetKeys(v)
    case None => acc
    case Some(keys) =>
      match acc
      case None => Some(keys)
      case Some(seen) => Some(seen + keys)
  }

  /** An element `x` is in an optional key set. */
  predicate InOpt(x: InterpolateKey, acc: Option<set<InterpolateKey>>)
  {
    acc.Some? && x in acc.value
  }

  /** Merging a value into an accumulator is a union in which `None` is the empty element. */
  lemma GetKeysInnerIsUnion(v: ParsedValue, acc: Option<set<InterpolateKey>>)
    ensures GetKeysInner(v, acc).None? <==> acc.None? && GetKeys(v).None?
    ensures forall x :: InOpt(x, GetKeysInner(v, acc)) <==> InOpt(x, acc) || InOpt(x, GetKeys(v))
    ensures GetKeysInner(v, None) == GetKeys(v)
  {
  }
}
