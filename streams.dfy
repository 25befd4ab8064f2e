/**
 * The part of java.util.stream the query engine relies on:
 * `list.stream().filter(pred).toList()` (or `.collect(Collectors.toList())`).
 * A stream filter visits the elements in encounter order and keeps those
 * the predicate accepts; when evaluating the predicate throws, the whole
 * pipeline throws.
 */
module Streams {
  import opened Wrappers

  /** The order-preserving filter: the elements of `s` that `keep` accepts. */
  function Filter<T>(s: seq<T>, keep: T -> bool): (r: seq<T>)
    ensures |r| <= |s|
    ensures forall x :: x in r ==> x in s && keep(x)
  {
    if |s| == 0 then []
    else (if keep(s[0]) then [s[0]] else []) + Filter(s[1..], keep)
  }

  /** An element survives the filter exactly when it is in the input and is accepted. */
  lemma {:induction false} FilterMembers<T>(s: seq<T>, keep: T -> bool, x: T)
    ensures x in Filter(s, keep) <==> x in s && keep(x)
  {
    if |s| > 0 {
      FilterMembers(s[1..], keep, x);
      assert s == [s[0]] + s[1..];
    }
  }

  /** Filtering commutes with concatenation: relative order is kept. */
  lemma {:induction false} FilterConcat<T>(a: seq<T>, b: seq<T>, keep: T -> bool)
    ensures Filter(a + b, keep) == Filter(a, keep) + Filter(b, keep)
  {
    if |a| > 0 {
      assert (a + b)[1..] == a[1..] + b;
      FilterConcat(a[1..], b, keep);
    } else {
      assert a + b == b;
    }
  }

  /** The result is empty exactly when no element is accepted. */
  lemma FilterEmpty<T>(s: seq<T>, keep: T -> bool)
    ensures Filter(s, keep) == [] <==> forall x :: x in s ==> !keep(x)
  {
    if Filter(s, keep) != [] {
      assert Filter(s, keep)[0] in Filter(s, keep);
    } else {
      forall x | x in s ensures !keep(x) {
        FilterMembers(s, keep, x);
      }
    }
  }

  /** Two predicates that agree on the input give the same result. */
  lemma {:induction false} FilterAgree<T>(s: seq<T>, f: T -> bool, g: T -> bool)
    requires forall x :: x in s ==> f(x) == g(x)
    ensures Filter(s, f) == Filter(s, g)
  {
    if |s| > 0 {
      assert forall x :: x in s[1..] ==> x in s;
      FilterAgree(s[1..], f, g);
    }
  }

  /** A filter that accepts every element of the input returns the input. */
  lemma {:induction false} FilterKeepsAll<T>(s: seq<T>, keep: T -> bool)
    requires forall x :: x in s ==> keep(x)
    ensures Filter(s, keep) == s
  {
    if |s| > 0 {
      assert forall x :: x in s[1..] ==> x in s;
      FilterKeepsAll(s[1..], keep);
      assert s == [s[0]] + s[1..];
    }
  }

  /** Filtering by `f` and then by `g` is filtering once by their conjunction `both`. */
  lemma {:induction false} FilterThenFilter<T>(s: seq<T>, f: T -> bool, g: T -> bool, both: T -> bool)
    requires forall x :: x in s ==> both(x) == (f(x) && g(x))
    ensures Filter(Filter(s, f), g) == Filter(s, both)
  {
    if |s| > 0 {
      assert forall x :: x in s[1..] ==> x in s;
      FilterThenFilter(s[1..], f, g, both);
      var head := if f(s[0]) then [s[0]] else [];
      FilterConcat(head, Filter(s[1..], f), g);
    }
  }

  /**
   * `stream().filter(keep)` collected into a list, where evaluating the
   * predicate on an element `x` throws a NullPointerException when
   * `throws(x)` holds (an unboxed null, a method called on null).
   */
  function FilterOrThrow<T>(s: seq<T>, throws: T -> bool, keep: T -> bool): (r: Result<seq<T>>)
    ensures r.Failure? <==> exists x :: x in s && throws(x)
    ensures r.Failure? ==> r.fault == NullPointerException
    ensures r.Success? ==> r.value == Filter(s, keep)
  {
    if |s| == 0 then Success([])
    else if throws(s[0]) then Failure(NullPointerException)
    else
      match FilterOrThrow(s[1..], throws, keep)
      case Failure(f) => Failure(f)
      case Success(rest) => Success((if keep(s[0]) then [s[0]] else []) + rest)
  }
}
