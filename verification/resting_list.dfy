/**
 * The resting list of a pool, seen as a value: the list transformations that
 * `push`, `pull`, `get` and `erase_invalid` perform on it, and their laws.
 * The validity hook is a parameter `valid`; it stands for the pool's
 * `v_is_valid` as it answers at the moment of the operation.
 */
module RestingList {

  import opened Wrappers

  /** The elements of `s` that satisfy `valid`, in their original order
    * (what `erase_invalid` keeps). */
  function Filter<T>(s: seq<T>, valid: T -> bool): (r: seq<T>)
    ensures |r| <= |s|
    ensures forall i :: 0 <= i < |r| ==> valid(r[i])
    ensures forall x :: x in r ==> x in s
  {
    if s == [] then []
    else (if valid(s[0]) then [s[0]] else []) + Filter(s[1..], valid)
  }

  /** Filtering distributes over concatenation: the sweep may be done piecewise. */
  lemma {:induction false} FilterAppend<T>(s: seq<T>, t: seq<T>, valid: T -> bool)
    ensures Filter(s + t, valid) == Filter(s, valid) + Filter(t, valid)
  {
    if s == [] {
      assert s + t == t;
    } else {
      assert (s + t)[1..] == s[1..] + t;
      FilterAppend(s[1..], t, valid);
    }
  }

  /** An element survives the sweep exactly when it was there and is valid. */
  lemma {:induction false} FilterMembership<T>(s: seq<T>, valid: T -> bool, x: T)
    ensures x in Filter(s, valid) <==> x in s && valid(x)
  {
    if s != [] {
      FilterMembership(s[1..], valid, x);
      assert x in s <==> x == s[0] || x in s[1..];
    }
  }

  /** A sweep removes nothing from a list whose elements are all valid. */
  lemma {:induction false} FilterKeepsAllValid<T>(s: seq<T>, valid: T -> bool)
    requires forall i :: 0 <= i < |s| ==> valid(s[i])
    ensures Filter(s, valid) == s
  {
    if s != [] {
      FilterKeepsAllValid(s[1..], valid);
      assert [s[0]] + s[1..] == s;
    }
  }

  /** Sweeping twice is the same as sweeping once. */
  lemma FilterIdempotent<T>(s: seq<T>, valid: T -> bool)
    ensures Filter(Filter(s, valid), valid) == Filter(s, valid)
  {
    FilterKeepsAllValid(Filter(s, valid), valid);
  }

  /** The complementary predicate: what a sweep discards. */
  function Invalid<T>(valid: T -> bool): T -> bool
  {
    x => !valid(x)
  }

  /** Conservation: every element is either kept or discarded, never both. */
  lemma {:induction false} FilterPartition<T>(s: seq<T>, valid: T -> bool)
    ensures |Filter(s, valid)| + |Filter(s, Invalid(valid))| == |s|
  {
    if s != [] {
      FilterPartition(s[1..], valid);
    }
  }

  /** A sweep of a list without duplicates yields a list without duplicates. */
  lemma {:induction false} FilterDistinct<T>(s: seq<T>, valid: T -> bool)
    requires Distinct(s)
    ensures Distinct(Filter(s, valid))
  {
    if s != [] {
      FilterDistinct(s[1..], valid);
      var rest := Filter(s[1..], valid);
      if valid(s[0]) {
        assert s[0] !in s[1..];
        FilterMembership(s[1..], valid, s[0]);
        var r := [s[0]] + rest;
        forall i, j | 0 <= i < j < |r| ensures r[i] != r[j] {
          if i == 0 {
            assert r[j] == rest[j - 1];
          } else {
            assert r[i] == rest[i - 1] && r[j] == rest[j - 1];
          }
        }
      }
    }
  }

  predicate Distinct<T(==)>(s: seq<T>)
  {
    forall i, j :: 0 <= i < j < |s| ==> s[i] != s[j]
  }

  /**
   * Where `get` finds its instance: the index of the valid element nearest
   * the tail, or None when every element is invalid. `get` pops from the tail
   * and discards invalid candidates until it reaches this index.
   */
  function LastValid<T>(s: seq<T>, valid: T -> bool): (r: Option<nat>)
    ensures r.Some? ==> r.value < |s| && valid(s[r.value])
    ensures r.Some? ==> forall k :: r.value < k < |s| ==> !valid(s[k])
    ensures r.None? <==> forall k :: 0 <= k < |s| ==> !valid(s[k])
  {
    if s == [] then None
    else if valid(s[|s| - 1]) then Some(|s| - 1)
    else LastValid(s[..|s| - 1], valid)
  }

  /** The contract of LastValid pins it down: a valid element with only invalid
    * ones behind it is the one `get` returns. */
  lemma LastValidIs<T>(s: seq<T>, valid: T -> bool, k: nat)
    requires k < |s| && valid(s[k])
    requires forall j :: k < j < |s| ==> !valid(s[j])
    ensures LastValid(s, valid) == Some(k)
  {
    var r := LastValid(s, valid);
    assert r.Some? by { assert !(forall j :: 0 <= j < |s| ==> !valid(s[j])); }
  }

  /** LIFO reuse: after a valid element is appended, `get` takes exactly that
    * element and leaves the list as it was before the append. */
  lemma PushThenGet<T>(s: seq<T>, x: T, valid: T -> bool)
    requires valid(x)
    ensures LastValid(s + [x], valid) == Some(|s|)
    ensures (s + [x])[..|s|] == s
  {
    LastValidIs(s + [x], valid, |s|);
  }

  /** After an invalid element is appended, `get` behaves as on the old list:
    * the candidate is discarded first. */
  lemma {:induction false} InvalidPushThenGet<T>(s: seq<T>, x: T, valid: T -> bool)
    requires !valid(x)
    ensures LastValid(s + [x], valid) == LastValid(s, valid)
  {
    assert (s + [x])[..|s|] == s;
  }
}
