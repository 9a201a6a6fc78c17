/** Integer widths, bytes and the sequence filter that the other modules share. */
module Basics {
  type u8 = x: int | 0 <= x < 0x100
  type u16 = x: int | 0 <= x < 0x1_0000
  type u32 = x: int | 0 <= x < 0x1_0000_0000
  type Byte = u8

  datatype Option<+T> = None | Some(value: T)

  /** The elements of `s` that satisfy `p`, in their original order. */
  function Filter<T>(p: T -> bool, s: seq<T>): seq<T> {
    if s == [] then []
    else
      var init, last := Filter(p, s[..|s| - 1]), s[|s| - 1];
      if p(last) then init + [last] else init
  }

  lemma {:induction false} FilterMembers<T>(p: T -> bool, s: seq<T>)
    ensures forall x | x in Filter(p, s) :: x in s && p(x)
    ensures forall x | x in s && p(x) :: x in Filter(p, s)
  {
    if s == [] {
    } else {
      FilterMembers(p, s[..|s| - 1]);
      assert s == s[..|s| - 1] + [s[|s| - 1]];
    }
  }

  /** One more element of a prefix adds at most one element to the filtered prefix. */
  lemma FilterStep<T>(p: T -> bool, s: seq<T>, i: nat)
    requires i < |s|
    ensures Filter(p, s[..i + 1]) == Filter(p, s[..i]) + (if p(s[i]) then [s[i]] else [])
  {
    assert s[..i + 1][..i] == s[..i];
  }

  lemma {:induction false} FilterConcat<T>(p: T -> bool, a: seq<T>, b: seq<T>)
    ensures Filter(p, a + b) == Filter(p, a) + Filter(p, b)
  {
    if b == [] {
      assert a + b == a;
    } else {
      var init := b[..|b| - 1];
      assert (a + b)[..|a + b| - 1] == a + init;
      FilterConcat(p, a, init);
    }
  }

  /** Filtering twice is filtering by the conjunction. */
  lemma {:induction false} FilterFilter<T>(p: T -> bool, q: T -> bool, both: T -> bool, s: seq<T>)
    requires forall x | x in s :: both(x) == (p(x) && q(x))
    ensures Filter(q, Filter(p, s)) == Filter(both, s)
  {
    if s == [] {
    } else {
      var init, last := s[..|s| - 1], s[|s| - 1];
      assert last in s;
      FilterFilter(p, q, both, init);
      FilterConcat(q, Filter(p, init), [last]);
    }
  }

  /** A predicate that holds of every element filters nothing out. */
  lemma {:induction false} FilterAll<T>(p: T -> bool, s: seq<T>)
    requires forall x | x in s :: p(x)
    ensures Filter(p, s) == s
  {
    if s == [] {
    } else {
      FilterAll(p, s[..|s| - 1]);
      assert s == s[..|s| - 1] + [s[|s| - 1]];
    }
  }

  /** The filtered sequence has one element for each position that satisfies the predicate. */
  lemma {:induction false} FilterCounts<T>(p: T -> bool, s: seq<T>, positions: set<int>)
    requires forall i | i in positions :: 0 <= i < |s| && p(s[i])
    requires forall i | 0 <= i < |s| && p(s[i]) :: i in positions
    ensures |Filter(p, s)| == |positions|
  {
    if s == [] {
      assert forall i :: i !in positions;
      assert positions == {};
    } else {
      var n := |s| - 1;
      FilterCounts(p, s[..n], positions - {n});
      if p(s[n]) {
        assert positions == (positions - {n}) + {n};
      } else {
        assert positions - {n} == positions;
      }
    }
  }

  /** A filter and its complement split the sequence. */
  lemma {:induction false} FilterComplement<T>(p: T -> bool, q: T -> bool, s: seq<T>)
    requires forall x | x in s :: p(x) != q(x)
    ensures |Filter(p, s)| + |Filter(q, s)| == |s|
    ensures multiset(Filter(p, s)) + multiset(Filter(q, s)) == multiset(s)
  {
    if s == [] {
    } else {
      var init := s[..|s| - 1];
      assert s[|s| - 1] in s;
      FilterComplement(p, q, init);
      assert s == init + [s[|s| - 1]];
    }
  }
}
