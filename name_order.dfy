/**
 * `stream().sorted(Comparator.comparing(Policy::getName))`: a stable sort by
 * name under String.compareTo. Stream sorting is stable, so records with
 * equal names keep their input order. The comparator dereferences the name,
 * so a null name met by a comparison throws; the callers decide when that
 * happens, and the sort itself reads an absent name as "".
 */
module NameOrder {
  import opened Wrappers
  import opened Strings
  import opened Streams
  import opened PolicyModel

  /** The sort key. */
  function NameKey(p: Policy): (k: string) {
    if p.name.Some? then p.name.value else ""
  }

  /** No record's name comes after a later record's name (compareTo <= 0 along the list). */
  ghost predicate SortedByName(s: seq<Policy>) {
    forall i, j :: 0 <= i < j < |s| ==> !Less(NameKey(s[j]), NameKey(s[i]))
  }

  /** Insert `x` before the first record whose name is not before `x`'s. */
  function InsertByName(x: Policy, s: seq<Policy>): (r: seq<Policy>)
    ensures multiset(r) == multiset(s) + multiset{x}
  {
    if |s| == 0 then [x]
    else if Less(NameKey(s[0]), NameKey(x)) then
      assert s == [s[0]] + s[1..];
      [s[0]] + InsertByName(x, s[1..])
    else [x] + s
  }

  /** Stable insertion sort: each record goes in front of the sorted rest, ahead of equal names. */
  function SortByName(s: seq<Policy>): (r: seq<Policy>)
    ensures multiset(r) == multiset(s)
  {
    if |s| == 0 then []
    else
      assert s == [s[0]] + s[1..];
      InsertByName(s[0], SortByName(s[1..]))
  }

  lemma {:induction false} InsertKeepsSorted(x: Policy, s: seq<Policy>)
    requires SortedByName(s)
    ensures SortedByName(InsertByName(x, s))
  {
    if |s| > 0 && Less(NameKey(s[0]), NameKey(x)) {
      InsertKeepsSorted(x, s[1..]);
      var rest := InsertByName(x, s[1..]);
      forall k | 0 <= k < |rest| ensures !Less(NameKey(rest[k]), NameKey(s[0])) {
        assert rest[k] in multiset(rest);
        if rest[k] == x {
          LessAsymmetric(NameKey(s[0]), NameKey(x));
        } else {
          assert rest[k] in multiset(s[1..]);
          var m :| 0 <= m < |s[1..]| && s[1..][m] == rest[k];
          assert s[m + 1] == rest[k];
        }
      }
    } else if |s| > 0 {
      forall k | 0 <= k < |s| ensures !Less(NameKey(s[k]), NameKey(x)) {
        if k > 0 {
          NotAfterTransitive(NameKey(x), NameKey(s[0]), NameKey(s[k]));
        }
      }
      var r := [x] + s;
      forall i, j | 0 <= i < j < |r| ensures !Less(NameKey(r[j]), NameKey(r[i])) {
        if i > 0 {
          assert r[i] == s[i - 1] && r[j] == s[j - 1];
        }
      }
    }
  }

  /** The ascending sort orders the records by name. */
  lemma {:induction false} SortByNameSorted(s: seq<Policy>)
    ensures SortedByName(SortByName(s))
  {
    if |s| > 0 {
      SortByNameSorted(s[1..]);
      InsertKeepsSorted(s[0], SortByName(s[1..]));
    }
  }

  /** The records with name `k`, in order. */
  function Named(k: string): (keep: Policy -> bool) {
    p => NameKey(p) == k
  }

  lemma {:induction false} InsertKeepsNamedOrder(x: Policy, s: seq<Policy>, k: string)
    ensures Filter(InsertByName(x, s), Named(k)) == Filter([x], Named(k)) + Filter(s, Named(k))
  {
    if |s| == 0 {
    } else if Less(NameKey(s[0]), NameKey(x)) {
      var head, tail := [s[0]], s[1..];
      InsertKeepsNamedOrder(x, tail, k);
      FilterConcat(head, InsertByName(x, tail), Named(k));
      FilterConcat(head, tail, Named(k));
      assert s == head + tail;
      var fx, fh, ft := Filter([x], Named(k)), Filter(head, Named(k)), Filter(tail, Named(k));
      assert Filter(InsertByName(x, s), Named(k)) == fh + (fx + ft);
      assert Filter(s, Named(k)) == fh + ft;
      if NameKey(s[0]) == k && NameKey(x) == k {
        LessIrreflexive(k);
      }
      SwapPastEmpty(fh, fx, ft);
    } else {
      FilterConcat([x], s, Named(k));
    }
  }

  lemma SwapPastEmpty<T>(a: seq<T>, b: seq<T>, c: seq<T>)
    requires a == [] || b == []
    ensures a + (b + c) == b + (a + c)
  {
    if a == [] {
      assert a + (b + c) == b + c;
      assert a + c == c;
    } else {
      assert b + c == c;
      assert b + (a + c) == a + c;
    }
  }

  /**
   * Stability: for every name, the records carrying it appear in the sorted
   * list in the same relative order as in the input.
   */
  lemma {:induction false} SortByNameStable(s: seq<Policy>, k: string)
    ensures Filter(SortByName(s), Named(k)) == Filter(s, Named(k))
  {
    if |s| > 0 {
      SortByNameStable(s[1..], k);
      InsertKeepsNamedOrder(s[0], SortByName(s[1..]), k);
      FilterConcat([s[0]], s[1..], Named(k));
      assert s == [s[0]] + s[1..];
    }
  }

  /** Sorting an already sorted list changes nothing; in particular sorting is idempotent. */
  lemma {:induction false} SortByNameOfSorted(s: seq<Policy>)
    requires SortedByName(s)
    ensures SortByName(s) == s
  {
    if |s| > 0 {
      SortByNameOfSorted(s[1..]);
      assert s == [s[0]] + s[1..];
      if |s| > 1 {
        assert !Less(NameKey(s[1]), NameKey(s[0]));
      }
    }
  }

  lemma SortByNameIdempotent(s: seq<Policy>)
    ensures SortByName(SortByName(s)) == SortByName(s)
  {
    SortByNameSorted(s);
    SortByNameOfSorted(SortByName(s));
  }
}
