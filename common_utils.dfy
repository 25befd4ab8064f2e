/** The null/empty predicates that decide which query criteria count as supplied. */
module CommonUtils {
  import opened Wrappers
  import opened Strings

  /** nullOrEmpty(Collection): a null or empty collection. */
  predicate NullOrEmptyCollection<T>(collection: Option<seq<T>>)
    ensures NullOrEmptyCollection(collection) <==> collection == None || collection == Some([])
  {
    collection.None? || |collection.value| == 0
  }

  /** nullOrEmpty(Integer): only null; zero and negative values are supplied. */
  predicate NullOrEmptyInteger(value: Option<int>)
    ensures NullOrEmptyInteger(value) <==> value == None
  {
    value.None?
  }

  /** nullOrEmpty(String): null, empty, or whitespace only (String.isBlank). */
  predicate NullOrEmptyString(value: Option<string>)
    ensures NullOrEmptyString(value) <==>
              value.None? || forall i :: 0 <= i < |value.value| ==> IsWhitespace(value.value[i])
  {
    value.None? || IsBlank(value.value)
  }

  /** Every integer, zero and negatives included, counts as a supplied criterion. */
  lemma IntegerSupplied(n: int)
    ensures !NullOrEmptyInteger(Some(n))
  {
  }

  /** The empty string and a string of spaces are not supplied. */
  lemma BlankStringsNotSupplied(k: nat)
    ensures NullOrEmptyString(Some(""))
    ensures NullOrEmptyString(Some(seq(k, _ => ' ')))
  {
  }

  /**
   * One non-whitespace character makes a string supplied, whatever
   * whitespace surrounds it: nothing is trimmed.
   */
  lemma NonBlankSupplied(before: string, c: char, after: string)
    requires !IsWhitespace(c)
    ensures !NullOrEmptyString(Some(before + [c] + after))
  {
    assert (before + [c] + after)[|before|] == c;
  }
}
