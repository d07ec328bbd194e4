/**
 * The two grouping idioms the catalog views share.
 *
 * `KeepFirstBy` keeps the first element for each key, which is what
 * `variants.filter((v, i, arr) => arr.findIndex(x => x.url === v.url) === i)`,
 * `Array.from(new Set(list.map(i => i.url))).map(url => list.find(...))` and the
 * `seenBaseNames` loop all compute. `GroupBy` is the `forEach` that pushes each
 * element onto `map[key]`, creating the bucket on first sight.
 */
module Grouping {

  // ---------------------------------------------------------------------------
  // Keys, members, first keys
  // ---------------------------------------------------------------------------

  /** The keys the elements of `s` have. */
  function Keys<T(!new), K(!new)>(s: seq<T>, f: T -> K): (r: set<K>)
    ensures forall i :: 0 <= i < |s| ==> f(s[i]) in r
  {
    if s == [] then {} else Keys(s[..|s| - 1], f) + {f(s[|s| - 1])}
  }

  /** Every key is the key of some element. */
  lemma {:induction false} KeysWitness<T(!new), K(!new)>(s: seq<T>, f: T -> K, k: K)
    requires k in Keys(s, f)
    ensures exists i :: 0 <= i < |s| && f(s[i]) == k
  {
    var init := s[..|s| - 1];
    if k != f(s[|s| - 1]) {
      KeysWitness(init, f, k);
      var i :| 0 <= i < |init| && f(init[i]) == k;
      assert s[i] == init[i];
    }
  }

  lemma KeysSnoc<T(!new), K(!new)>(s: seq<T>, x: T, f: T -> K)
    ensures Keys(s + [x], f) == Keys(s, f) + {f(x)}
  {
    assert (s + [x])[..|s|] == s;
  }

  /** `s.filter(p)`. */
  function Filter<T(==,!new)>(s: seq<T>, p: T -> bool): (r: seq<T>)
    ensures |r| <= |s|
    ensures forall i :: 0 <= i < |r| ==> p(r[i])
    ensures forall i :: 0 <= i < |s| && p(s[i]) ==> s[i] in r
    ensures forall y :: y in r ==> y in s
  {
    if s == [] then []
    else
      var init := s[..|s| - 1];
      var x := s[|s| - 1];
      assert forall i :: 0 <= i < |init| ==> init[i] == s[i];
      Filter(init, p) + (if p(x) then [x] else [])
  }

  /** Filtering works element by element in list order: one more element is
      appended to the result when it passes, and only then. */
  lemma FilterSnoc<T(!new)>(s: seq<T>, x: T, p: T -> bool)
    ensures Filter(s + [x], p) == Filter(s, p) + (if p(x) then [x] else [])
  {
    assert (s + [x])[..|s|] == s;
  }

  /** The elements of `s` with key `k`, in their order in `s`. */
  function Members<T(==,!new), K(==,!new)>(s: seq<T>, f: T -> K, k: K): (r: seq<T>)
    ensures |r| <= |s|
    ensures forall i :: 0 <= i < |r| ==> f(r[i]) == k
    ensures forall i :: 0 <= i < |s| && f(s[i]) == k ==> s[i] in r
    ensures forall y :: y in r ==> y in s
  {
    if s == [] then []
    else
      var init := s[..|s| - 1];
      var x := s[|s| - 1];
      assert forall i :: 0 <= i < |init| ==> init[i] == s[i];
      Members(init, f, k) + (if f(x) == k then [x] else [])
  }

  lemma MembersSnoc<T(!new), K(!new)>(s: seq<T>, x: T, f: T -> K, k: K)
    ensures Members(s + [x], f, k) == Members(s, f, k) + (if f(x) == k then [x] else [])
  {
    assert (s + [x])[..|s|] == s;
  }

  /** A key no element has has no members. */
  lemma {:induction false} MembersOfMissingKey<T(!new), K(!new)>(s: seq<T>, f: T -> K, k: K)
    requires k !in Keys(s, f)
    ensures Members(s, f, k) == []
  {
    if s != [] {
      MembersOfMissingKey(s[..|s| - 1], f, k);
    }
  }

  /** The keys in order of first appearance. */
  function FirstKeys<T(!new), K(==,!new)>(s: seq<T>, f: T -> K): (r: seq<K>)
    ensures forall i, j :: 0 <= i < j < |r| ==> r[i] != r[j]
    ensures forall k :: k in r <==> k in Keys(s, f)
  {
    if s == [] then []
    else
      var init := s[..|s| - 1];
      var k := f(s[|s| - 1]);
      if k in Keys(init, f) then FirstKeys(init, f) else FirstKeys(init, f) + [k]
  }

  lemma FirstKeysSnoc<T(!new), K(!new)>(s: seq<T>, x: T, f: T -> K)
    ensures FirstKeys(s + [x], f)
         == if f(x) in Keys(s, f) then FirstKeys(s, f) else FirstKeys(s, f) + [f(x)]
  {
    assert (s + [x])[..|s|] == s;
  }

  // ---------------------------------------------------------------------------
  // Keep the first element per key
  // ---------------------------------------------------------------------------

  /** The elements of `s` whose key no earlier element has, in order. */
  function KeepFirstBy<T(==,!new), K(==,!new)>(s: seq<T>, f: T -> K): (r: seq<T>)
    ensures |r| <= |s|
    ensures forall y :: y in r ==> y in s
    ensures forall i, j :: 0 <= i < j < |r| ==> f(r[i]) != f(r[j])
    ensures Keys(r, f) == Keys(s, f)
  {
    if s == [] then []
    else
      var init := s[..|s| - 1];
      var x := s[|s| - 1];
      var r0 := KeepFirstBy(init, f);
      assert init + [x] == s;
      KeysSnoc(init, x, f);
      if f(x) in Keys(init, f) then
        r0
      else
        KeysSnoc(r0, x, f);
        r0 + [x]
  }

  /** What is kept of a filtered list passed the filter and comes from the list. */
  lemma KeptFiltered<T(!new), K(!new)>(s: seq<T>, p: T -> bool, f: T -> K, e: T)
    requires e in KeepFirstBy(Filter(s, p), f)
    ensures e in s && p(e)
  {
    var r := Filter(s, p);
    assert e in r;
    var k :| 0 <= k < |r| && r[k] == e;
  }

  lemma KeepFirstBySnoc<T(!new), K(!new)>(s: seq<T>, x: T, f: T -> K)
    ensures KeepFirstBy(s + [x], f)
         == if f(x) in Keys(s, f) then KeepFirstBy(s, f) else KeepFirstBy(s, f) + [x]
  {
    assert (s + [x])[..|s|] == s;
  }

  /** The element kept for each key is its first occurrence: an element whose key
      no earlier element has is kept. */
  lemma {:induction false} KeepFirstByKeepsFirst<T(!new), K(!new)>(s: seq<T>, f: T -> K, i: nat)
    requires i < |s| && f(s[i]) !in Keys(s[..i], f)
    ensures s[i] in KeepFirstBy(s, f)
    decreases |s|
  {
    var init := s[..|s| - 1];
    assert init + [s[|s| - 1]] == s;
    KeepFirstBySnoc(init, s[|s| - 1], f);
    if i < |s| - 1 {
      assert init[..i] == s[..i];
      KeepFirstByKeepsFirst(init, f, i);
    } else {
      assert s[..i] == init;
    }
  }

  /** Keeping the first per key is idempotent. */
  lemma KeepFirstByTwice<T(!new), K(!new)>(s: seq<T>, f: T -> K)
    ensures KeepFirstBy(KeepFirstBy(s, f), f) == KeepFirstBy(s, f)
  {
    DistinctKeysKept(KeepFirstBy(s, f), f);
  }

  /** A sequence whose keys are already distinct is kept whole. */
  lemma {:induction false} DistinctKeysKept<T(!new), K(!new)>(s: seq<T>, f: T -> K)
    requires forall i, j :: 0 <= i < j < |s| ==> f(s[i]) != f(s[j])
    ensures KeepFirstBy(s, f) == s
  {
    if s != [] {
      var init := s[..|s| - 1];
      var x := s[|s| - 1];
      assert init + [x] == s;
      DistinctKeysKept(init, f);
      assert forall i :: 0 <= i < |init| ==> f(init[i]) != f(x) by {
        assert forall i :: 0 <= i < |init| ==> init[i] == s[i];
      }
      if f(x) in Keys(init, f) {
        KeysWitness(init, f, f(x));
      }
      KeepFirstBySnoc(init, x, f);
    }
  }

  // ---------------------------------------------------------------------------
  // Group into buckets
  // ---------------------------------------------------------------------------

  /** The `forEach` that pushes each element onto the bucket of its key. The
      buckets are the keys' members in input order, and the keys come out in
      order of first appearance. */
  method GroupBy<T(==,!new), K(==,!new)>(s: seq<T>, f: T -> K) returns (groups: map<K, seq<T>>, order: seq<K>)
    ensures order == FirstKeys(s, f)
    ensures groups.Keys == Keys(s, f)
    ensures forall k :: k in groups ==> groups[k] == Members(s, f, k)
  {
    groups := map[];
    order := [];
    for i := 0 to |s|
      invariant order == FirstKeys(s[..i], f)
      invariant groups.Keys == Keys(s[..i], f)
      invariant forall k :: k in groups ==> groups[k] == Members(s[..i], f, k)
    {
      var x := s[i];
      var k := f(x);
      SliceSnoc(s, i);
      GroupStep(s[..i], x, f, groups);
      FirstKeysSnoc(s[..i], x, f);
      if k !in groups {
        groups := groups[k := [x]];
        order := order + [k];
      } else {
        groups := groups[k := groups[k] + [x]];
      }
    }
    assert s[..|s|] == s;
  }

  /** One more element lands at the end of its key's bucket, which is created
      when the key is new. */
  lemma GroupStep<T(!new), K(!new)>(t: seq<T>, x: T, f: T -> K, groups: map<K, seq<T>>)
    requires groups.Keys == Keys(t, f)
    requires forall k :: k in groups ==> groups[k] == Members(t, f, k)
    ensures var k := f(x);
            var g := if k in groups then groups[k := groups[k] + [x]] else groups[k := [x]];
            g.Keys == Keys(t + [x], f) && forall k' :: k' in g ==> g[k'] == Members(t + [x], f, k')
  {
    var k := f(x);
    var g := if k in groups then groups[k := groups[k] + [x]] else groups[k := [x]];
    KeysSnoc(t, x, f);
    if k !in groups {
      MembersOfMissingKey(t, f, k);
    }
    forall k' | k' in g
      ensures g[k'] == Members(t + [x], f, k')
    {
      MembersSnoc(t, x, f, k');
    }
  }

  lemma SliceSnoc<T>(s: seq<T>, i: nat)
    requires i < |s|
    ensures s[..i + 1] == s[..i] + [s[i]]
  {
  }

  /** A value at two positions occurs at least twice. */
  lemma TwoOccurrences<T>(r: seq<T>, i: nat, j: nat)
    requires i < j < |r| && r[i] == r[j]
    ensures multiset(r)[r[i]] >= 2
  {
    assert r == r[..i] + [r[i]] + r[i + 1..j] + [r[j]] + r[j + 1..];
  }

  /** A value occurs at most once in a sequence without repeats. */
  lemma {:induction false} DistinctCount<T>(s: seq<T>, x: T)
    requires forall i, j :: 0 <= i < j < |s| ==> s[i] != s[j]
    ensures multiset(s)[x] <= 1
  {
    if s != [] {
      assert s == [s[0]] + s[1..];
      DistinctCount(s[1..], x);
      if s[0] == x {
        assert x !in s[1..];
      }
    }
  }
}
