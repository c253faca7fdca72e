/**
 * Order-preserving selection over sequences: the model of
 * `Array.prototype.filter` / `.map` and of a Firestore query's equality
 * filters applied to a collection snapshot.
 *
 * `KeptIndices` is the reference description of a filter: the positions
 * that survive, in increasing order. `Filter` and `Somes` are computed by
 * their own recursion and proved to agree with it, which gives "nothing is
 * dropped, nothing is invented, duplicates stay, order is kept" in one place.
 */
module Seqs {
  import opened Wrappers

  ghost predicate Increasing(idx: seq<nat>)
  {
    forall k, l :: 0 <= k < l < |idx| ==> idx[k] < idx[l]
  }

  /** The positions `i >= from` of `s` whose element satisfies `keep`, in increasing order. */
  function KeptIndices<T>(s: seq<T>, keep: T -> bool, from: nat): (idx: seq<nat>)
    requires from <= |s|
    ensures Increasing(idx)
    ensures forall k :: 0 <= k < |idx| ==> from <= idx[k] < |s| && keep(s[idx[k]])
    ensures forall i :: from <= i < |s| && keep(s[i]) ==> i in idx
    decreases |s| - from
  {
    if from == |s| then []
    else if keep(s[from]) then [from] + KeptIndices(s, keep, from + 1)
    else KeptIndices(s, keep, from + 1)
  }

  /** Two filters that agree position by position keep the same positions. */
  lemma {:induction false} KeptIndicesAgree<T, U>(s: seq<T>, p: T -> bool, t: seq<U>, q: U -> bool, from: nat)
    requires |s| == |t| && from <= |s|
    requires forall i :: from <= i < |s| ==> p(s[i]) == q(t[i])
    ensures KeptIndices(s, p, from) == KeptIndices(t, q, from)
    decreases |s| - from
  {
    if from < |s| {
      KeptIndicesAgree(s, p, t, q, from + 1);
    }
  }

  /** `s.filter(keep)` restricted to the positions at or after `from`. */
  function FilterFrom<T>(s: seq<T>, keep: T -> bool, from: nat): (r: seq<T>)
    requires from <= |s|
    ensures |r| == |KeptIndices(s, keep, from)|
    ensures forall k :: 0 <= k < |r| ==> r[k] == s[KeptIndices(s, keep, from)[k]]
    decreases |s| - from
  {
    if from == |s| then []
    else if keep(s[from]) then [s[from]] + FilterFrom(s, keep, from + 1)
    else FilterFrom(s, keep, from + 1)
  }

  /** `s.filter(keep)`: the elements that satisfy `keep`, in order, duplicates included. */
  function Filter<T(!new)>(s: seq<T>, keep: T -> bool): (r: seq<T>)
    ensures |r| <= |s|
    ensures |r| == |KeptIndices(s, keep, 0)|
    ensures forall k :: 0 <= k < |r| ==> r[k] == s[KeptIndices(s, keep, 0)[k]]
    ensures forall x :: x in r <==> x in s && keep(x)
  {
    var r := FilterFrom(s, keep, 0);
    var idx := KeptIndices(s, keep, 0);
    assert |idx| <= |s| by { IncreasingBounded(idx, |s|); }
    forall x | x in s && keep(x)
      ensures x in r
    {
      var i :| 0 <= i < |s| && s[i] == x;
      var k :| 0 <= k < |idx| && idx[k] == i;
      assert r[k] == x;
    }
    assert r == FilterFrom(s, keep, 0);
    r
  }

  /** Filtering from position `i + 1` of `[x] + s` is filtering from position `i` of `s`. */
  lemma {:induction false} FilterFromShift<T>(x: T, s: seq<T>, keep: T -> bool, i: nat)
    requires i <= |s|
    ensures FilterFrom([x] + s, keep, i + 1) == FilterFrom(s, keep, i)
    decreases |s| - i
  {
    if i < |s| {
      assert ([x] + s)[i + 1] == s[i];
      FilterFromShift(x, s, keep, i + 1);
    }
  }

  /** `[x, ...s].filter(keep)` is `x` (when kept) followed by `s.filter(keep)`. */
  lemma FilterCons<T(!new)>(x: T, s: seq<T>, keep: T -> bool)
    ensures Filter([x] + s, keep) == (if keep(x) then [x] else []) + Filter(s, keep)
  {
    FilterFromShift(x, s, keep, 0);
    assert ([x] + s)[0] == x;
  }

  /**
   * Two prefixes of which one is empty can be put in front of a sequence in
   * either order: `hs + (ts + x) == ts + (hs + x)`, named piecewise.
   */
  lemma PrefixesCommute<T>(hs: seq<T>, ts: seq<T>, x: seq<T>, tsx: seq<T>, hstsx: seq<T>, hsx: seq<T>)
    requires tsx == ts + x && hstsx == hs + tsx && hsx == hs + x
    requires hs == [] || ts == []
    ensures hstsx == ts + hsx
  {
    if hs == [] {
      assert hstsx == tsx && hsx == x;
    } else {
      assert tsx == x;
    }
  }

  /** An increasing sequence of indices below `n` has at most `n` entries. */
  lemma {:induction false} IncreasingBounded(idx: seq<nat>, n: nat)
    requires Increasing(idx)
    requires forall k :: 0 <= k < |idx| ==> idx[k] < n
    ensures |idx| <= n
    decreases n
  {
    if |idx| > 0 {
      var last := idx[|idx| - 1];
      var front := idx[..|idx| - 1];
      assert forall k :: 0 <= k < |front| ==> front[k] < last;
      IncreasingBounded(front, last);
    }
  }

  /** `s.map(f)`. */
  function Map<T, U>(s: seq<T>, f: T -> U): (r: seq<U>)
    ensures |r| == |s|
    ensures forall i :: 0 <= i < |s| ==> r[i] == f(s[i])
  {
    seq(|s|, i requires 0 <= i < |s| => f(s[i]))
  }

  /** Every element of a mapped sequence is the image of some element of the original. */
  lemma MapMember<T, U>(s: seq<T>, f: T -> U, y: U) returns (i: nat)
    requires y in Map(s, f)
    ensures i < |s| && f(s[i]) == y
  {
    var r := Map(s, f);
    var k :| 0 <= k < |r| && r[k] == y;
    i := k;
  }

  /** The "is not null" test of `.filter((x) => x !== null)`. */
  function IsSome<T>(): Option<T> -> bool
  {
    (o: Option<T>) => o.Some?
  }

  /** The present values of `s` at or after `from`, in order. */
  function SomesFrom<T>(s: seq<Option<T>>, from: nat): (r: seq<T>)
    requires from <= |s|
    ensures |r| == |KeptIndices(s, IsSome(), from)|
    ensures forall k :: 0 <= k < |r| ==> s[KeptIndices(s, IsSome(), from)[k]] == Some(r[k])
    decreases |s| - from
  {
    if from == |s| then []
    else if s[from].Some? then [s[from].value] + SomesFrom(s, from + 1)
    else SomesFrom(s, from + 1)
  }

  /** `s.filter((x) => x !== null)`: the present values, in order. */
  function Somes<T(!new)>(s: seq<Option<T>>): (r: seq<T>)
    ensures |r| <= |s|
    ensures |r| == |KeptIndices(s, IsSome(), 0)|
    ensures forall k :: 0 <= k < |r| ==> s[KeptIndices(s, IsSome(), 0)[k]] == Some(r[k])
    ensures forall x :: x in r <==> Some(x) in s
  {
    var r := SomesFrom(s, 0);
    var idx := KeptIndices(s, IsSome(), 0);
    assert |idx| <= |s| by { IncreasingBounded(idx, |s|); }
    forall x | Some(x) in s
      ensures x in r
    {
      var i :| 0 <= i < |s| && s[i] == Some(x);
      assert IsSome()(s[i]);
      var k :| 0 <= k < |idx| && idx[k] == i;
      assert r[k] == x;
    }
    r
  }
}
