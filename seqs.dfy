/** `Array.prototype.filter` on sequences, and what it means: the kept elements
    are exactly those that pass the test, in their original order. */
module Seqs {
  import opened Wrappers

  /** The elements of `s` that satisfy `p`, in order. */
  function Filter<T>(p: T -> bool, s: seq<T>): (r: seq<T>)
    ensures |r| <= |s|
    ensures forall x :: x in r ==> x in s && p(x)
  {
    if s == [] then []
    else Filter(p, s[..|s| - 1]) + (if p(s[|s| - 1]) then [s[|s| - 1]] else [])
  }

  /** The positions of `s` whose element satisfies `p`, in increasing order. */
  ghost function Kept<T>(p: T -> bool, s: seq<T>): seq<nat>
  {
    if s == [] then []
    else Kept(p, s[..|s| - 1]) + (if p(s[|s| - 1]) then [|s| - 1] else [])
  }

  /** `r` is the subsequence of `s` at the increasing positions `idx`. */
  ghost predicate SubsequenceAt<T>(r: seq<T>, s: seq<T>, idx: seq<nat>) {
    && |idx| == |r|
    && (forall k :: 0 <= k < |idx| ==> idx[k] < |s| && r[k] == s[idx[k]])
    && (forall j, k :: 0 <= j < k < |idx| ==> idx[j] < idx[k])
  }

  /** `Filter(p, s)` is the subsequence of `s` at the positions `Kept(p, s)`,
      and those are exactly the positions whose element passes. */
  lemma FilterIsSubsequence<T>(p: T -> bool, s: seq<T>)
    ensures SubsequenceAt(Filter(p, s), s, Kept(p, s))
    ensures forall i :: 0 <= i < |s| ==> (i in Kept(p, s) <==> p(s[i]))
  {
    KeptPicks(p, s);
    KeptIncreasing(p, s);
    KeptExactly(p, s);
  }

  lemma {:induction false} KeptPicks<T>(p: T -> bool, s: seq<T>)
    ensures |Kept(p, s)| == |Filter(p, s)|
    ensures forall k :: 0 <= k < |Kept(p, s)| ==>
              Kept(p, s)[k] < |s| && Filter(p, s)[k] == s[Kept(p, s)[k]]
  {
    if s != [] {
      var init := s[..|s| - 1];
      KeptPicks(p, init);
      assert forall k :: 0 <= k < |init| ==> init[k] == s[k];
    }
  }

  lemma {:induction false} KeptIncreasing<T>(p: T -> bool, s: seq<T>)
    ensures forall k :: 0 <= k < |Kept(p, s)| ==> Kept(p, s)[k] < |s|
    ensures forall j, k :: 0 <= j < k < |Kept(p, s)| ==> Kept(p, s)[j] < Kept(p, s)[k]
  {
    if s != [] {
      KeptIncreasing(p, s[..|s| - 1]);
    }
  }

  lemma {:induction false} KeptExactly<T>(p: T -> bool, s: seq<T>)
    ensures forall i :: 0 <= i < |s| ==> (i in Kept(p, s) <==> p(s[i]))
  {
    if s != [] {
      var init := s[..|s| - 1];
      KeptExactly(p, init);
      KeptIncreasing(p, init);
      assert forall i :: 0 <= i < |init| ==> init[i] == s[i];
    }
  }

  /** An element is kept exactly when it occurs in the input and passes. */
  lemma {:induction false} FilterMembership<T>(p: T -> bool, s: seq<T>, x: T)
    ensures x in Filter(p, s) <==> x in s && p(x)
  {
    if s != [] {
      var init := s[..|s| - 1];
      FilterMembership(p, init, x);
      assert s == init + [s[|s| - 1]];
    }
  }

  /** Filtering the concatenation of two sequences filters each one. */
  lemma {:induction false} FilterAppend<T>(p: T -> bool, a: seq<T>, b: seq<T>)
    ensures Filter(p, a + b) == Filter(p, a) + Filter(p, b)
    decreases |b|
  {
    if b == [] {
      assert a + b == a;
    } else {
      var b' := b[..|b| - 1];
      assert (a + b)[..|a + b| - 1] == a + b';
      FilterAppend(p, a, b');
    }
  }

  /** Filtering by `q` and then by `p` is filtering once by "`q` and `p`". */
  lemma {:induction false} FilterFilter<T>(p: T -> bool, q: T -> bool, both: T -> bool, s: seq<T>)
    requires forall x :: both(x) == (q(x) && p(x))
    ensures Filter(p, Filter(q, s)) == Filter(both, s)
  {
    if s != [] {
      var init, last := s[..|s| - 1], s[|s| - 1];
      FilterFilter(p, q, both, init);
      FilterAppend(p, Filter(q, init), if q(last) then [last] else []);
      if q(last) {
        assert Filter(p, [last]) == Filter(p, [])  + (if p(last) then [last] else []) by {
          assert [last][..0] == [];
        }
      }
    }
  }

  /** Filtering a second time with the same test changes nothing. */
  lemma FilterIdempotent<T>(p: T -> bool, s: seq<T>)
    ensures Filter(p, Filter(p, s)) == Filter(p, s)
  {
    FilterFilter(p, p, p, s);
  }

  /** A sequence all of whose elements pass is its own filtering. */
  lemma {:induction false} FilterAllPass<T>(p: T -> bool, s: seq<T>)
    requires forall i :: 0 <= i < |s| ==> p(s[i])
    ensures Filter(p, s) == s
  {
    if s != [] {
      var init := s[..|s| - 1];
      assert forall i :: 0 <= i < |init| ==> init[i] == s[i];
      FilterAllPass(p, init);
      assert s == init + [s[|s| - 1]];
    }
  }

  predicate IsSome<T>(o: Option<T>) { o.Some? }

  /** The contents of a sequence of options that are all present. */
  function Values<T>(s: seq<Option<T>>): (r: seq<T>)
    requires forall i :: 0 <= i < |s| ==> s[i].Some?
    ensures |r| == |s|
  {
    seq(|s|, k requires 0 <= k < |s| => s[k].value)
  }

  /** The present values of a sequence of options, in order (the source's
      `.filter(x => x !== null)`). */
  function Present<T>(s: seq<Option<T>>): (r: seq<T>)
    ensures |r| <= |s|
  {
    var f := Filter(IsSome, s);
    assert forall i :: 0 <= i < |f| ==> IsSome(f[i]);
    Values(f)
  }

  /** Appending an option appends its value, if it has one. */
  lemma PresentAppend<T>(s: seq<Option<T>>, o: Option<T>)
    ensures Present(s + [o]) == Present(s) + (if o.Some? then [o.value] else [])
  {
    assert (s + [o])[..|s|] == s;
  }
}
