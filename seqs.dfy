/**
 * Sequence operations the navigator is built from: `Array.prototype.filter`,
 * the iteration order of a `Set` built from an array, and the helper
 * `sortAndFilter` of gridnav.js that keeps every element tied at the
 * extremal key.
 */
module Seqs {

  /** The elements of `s` that satisfy `p`, in their original order. */
  function Filter<T>(s: seq<T>, p: T -> bool): (r: seq<T>)
    ensures |r| <= |s|
    ensures forall x | x in r :: x in s && p(x)
    ensures forall i | 0 <= i < |s| && p(s[i]) :: s[i] in r
    ensures multiset(r) <= multiset(s)
    ensures Distinct(s) ==> Distinct(r)
    decreases |s|
  {
    if |s| == 0 then []
    else
      assert s == [s[0]] + s[1..];
      if p(s[0]) then [s[0]] + Filter(s[1..], p) else Filter(s[1..], p)
  }

  ghost predicate Distinct<T>(s: seq<T>) {
    forall i, j | 0 <= i < j < |s| :: s[i] != s[j]
  }

  ghost predicate Increasing(idx: seq<nat>) {
    forall k, l | 0 <= k < l < |idx| :: idx[k] < idx[l]
  }

  /**
   * `r` is the subsequence of `s` at the increasing positions `idx`, and
   * `idx` lists exactly the positions of `s` whose element satisfies `p`.
   */
  ghost predicate SelectsAt<T>(r: seq<T>, s: seq<T>, p: T -> bool, idx: seq<nat>) {
    && |idx| == |r|
    && Increasing(idx)
    && (forall k | 0 <= k < |idx| :: idx[k] < |s| && r[k] == s[idx[k]])
    && (forall i | 0 <= i < |s| :: p(s[i]) <==> i in idx)
  }

  /** `r` is the order-preserving subsequence of exactly those elements of `s` that satisfy `p`. */
  ghost predicate IsFilterOf<T>(r: seq<T>, s: seq<T>, p: T -> bool) {
    exists idx :: SelectsAt(r, s, p, idx)
  }

  ghost function Shift(idx: seq<nat>): (r: seq<nat>)
    ensures |r| == |idx|
    ensures forall k | 0 <= k < |r| :: r[k] == idx[k] + 1
  {
    seq(|idx|, k requires 0 <= k < |idx| => idx[k] + 1)
  }

  /** The positions of `s` whose element satisfies `p`, ascending. */
  ghost function Positions<T>(s: seq<T>, p: T -> bool): seq<nat>
    decreases |s|
  {
    if |s| == 0 then []
    else if p(s[0]) then [0] + Shift(Positions(s[1..], p))
    else Shift(Positions(s[1..], p))
  }

  lemma {:induction false} FilterSelects<T>(s: seq<T>, p: T -> bool)
    ensures SelectsAt(Filter(s, p), s, p, Positions(s, p))
    ensures IsFilterOf(Filter(s, p), s, p)
    decreases |s|
  {
    if |s| > 0 {
      var t := s[1..];
      FilterSelects(t, p);
      ShiftSelects(s, p, Filter(t, p), Positions(t, p));
    }
  }

  /** The step of FilterSelects: positions in the tail, shifted by one, are positions in `s`. */
  lemma ShiftSelects<T>(s: seq<T>, p: T -> bool, r': seq<T>, idx': seq<nat>)
    requires |s| > 0
    requires SelectsAt(r', s[1..], p, idx')
    ensures p(s[0]) ==> SelectsAt([s[0]] + r', s, p, [0] + Shift(idx'))
    ensures !p(s[0]) ==> SelectsAt(r', s, p, Shift(idx'))
  {
    ShiftMembership(s, p, idx');
    if p(s[0]) {
      SelectHead(s, p, r', Shift(idx'));
    } else {
      var sh := Shift(idx');
      assert forall k | 0 <= k < |sh| :: sh[k] != 0;
    }
  }

  lemma SelectHead<T>(s: seq<T>, p: T -> bool, r': seq<T>, sh: seq<nat>)
    requires |s| > 0 && p(s[0])
    requires |sh| == |r'| && Increasing(sh)
    requires forall k | 0 <= k < |sh| :: 0 < sh[k] < |s| && r'[k] == s[sh[k]]
    requires forall i | 1 <= i < |s| :: p(s[i]) <==> i in sh
    ensures SelectsAt([s[0]] + r', s, p, [0] + sh)
  {
    var idx, r := [0] + sh, [s[0]] + r';
    assert Increasing(idx);
    assert forall k | 0 <= k < |idx| :: idx[k] < |s| && r[k] == s[idx[k]] by {
      forall k | 0 <= k < |idx|
        ensures idx[k] < |s| && r[k] == s[idx[k]]
      {
        if k > 0 { assert idx[k] == sh[k - 1] && r[k] == r'[k - 1]; }
      }
    }
    assert forall i | 0 <= i < |s| :: p(s[i]) <==> i in idx by {
      forall i | 0 <= i < |s|
        ensures p(s[i]) <==> i in idx
      {
        if i > 0 { assert i in sh <==> i in idx; }
      }
    }
  }

  lemma ShiftMembership<T>(s: seq<T>, p: T -> bool, idx': seq<nat>)
    requires |s| > 0
    requires forall i | 0 <= i < |s| - 1 :: p(s[1..][i]) <==> i in idx'
    ensures forall i | 1 <= i < |s| :: p(s[i]) <==> i in Shift(idx')
  {
    var t, sh := s[1..], Shift(idx');
    forall i | 1 <= i < |s|
      ensures p(s[i]) <==> i in sh
    {
      assert s[i] == t[i - 1];
      if p(s[i]) {
        var k :| 0 <= k < |idx'| && idx'[k] == i - 1;
        assert sh[k] == i;
      }
      if i in sh {
        var k :| 0 <= k < |sh| && sh[k] == i;
        assert idx'[k] == i - 1;
      }
    }
  }

  /**
   * Position of the first occurrence of `x` in `s`.
   */
  function FirstIndex<T(==)>(s: seq<T>, x: T): (i: nat)
    requires x in s
    ensures i < |s| && s[i] == x
    ensures forall j | 0 <= j < i :: s[j] != x
  {
    if s[0] == x then 0 else 1 + FirstIndex(s[1..], x)
  }

  /**
   * The elements of `s` without repetitions, in order of first occurrence:
   * the iteration order of `new Set(s)`.
   */
  function Dedup<T(==)>(s: seq<T>): (r: seq<T>)
    ensures forall x | x in r :: x in s
    ensures forall x | x in s :: x in r
    ensures Distinct(r)
    ensures forall i, j | 0 <= i < j < |r| :: FirstIndex(s, r[i]) < FirstIndex(s, r[j])
  {
    if |s| == 0 then []
    else
      var init, x := s[..|s| - 1], s[|s| - 1];
      assert s == init + [x];
      var r' := Dedup(init);
      FirstIndexExtend(init, x);
      if x in r' then r' else r' + [x]
  }

  /** First occurrences in a prefix stay first occurrences after appending. */
  lemma FirstIndexExtend<T>(init: seq<T>, x: T)
    ensures forall y | y in init :: FirstIndex(init + [x], y) == FirstIndex(init, y) < |init|
    ensures x !in init ==> FirstIndex(init + [x], x) == |init|
  {
    var s := init + [x];
    forall y | y in init
      ensures FirstIndex(s, y) == FirstIndex(init, y)
    {
      var a, b := FirstIndex(s, y), FirstIndex(init, y);
      assert s[b] == y && s[a] == y;
    }
  }

  datatype Order = Ascending | Descending

  /** `a` may stand before `b` when sorting in `order`. */
  predicate InOrder(a: int, b: int, order: Order) {
    if order == Ascending then a <= b else a >= b
  }

  /** The key of the first element after sorting in `order`: the minimum or maximum key. */
  function Extremum<T>(s: seq<T>, key: T -> int, order: Order): (m: int)
    requires |s| > 0
    ensures exists x | x in s :: key(x) == m
    ensures forall x | x in s :: InOrder(m, key(x), order)
  {
    if |s| == 1 then key(s[0])
    else
      assert s == [s[0]] + s[1..];
      var rest := Extremum(s[1..], key, order);
      if InOrder(key(s[0]), rest, order) then key(s[0]) else rest
  }

  function KeyEquals<T>(key: T -> int, v: int): T -> bool {
    x => key(x) == v
  }

  /**
   * Sort a copy of `targets` by `key` in `order` and keep the elements whose
   * key equals that of the first one; an empty input gives an empty result.
   * With a stable sort the kept elements keep their input order.
   */
  function SortAndFilter<T>(targets: seq<T>, key: T -> int, order: Order): (r: seq<T>)
    ensures r == [] <==> targets == []
    ensures |r| <= |targets|
    ensures forall x | x in r :: x in targets && forall y | y in targets :: InOrder(key(x), key(y), order)
    ensures forall x | x in targets && key(x) == Extremum(targets, key, order) :: x in r
    ensures multiset(r) <= multiset(targets)
    ensures targets != [] ==> IsFilterOf(r, targets, KeyEquals(key, Extremum(targets, key, order)))
  {
    if targets == [] then []
    else
      var best := Extremum(targets, key, order);
      var keep := KeyEquals(key, best);
      FilterSelects(targets, keep);
      var r := Filter(targets, keep);
      assert forall x | x in targets && key(x) == best :: x in r by {
        forall x | x in targets && key(x) == best
          ensures x in r
        {
          var i :| 0 <= i < |targets| && targets[i] == x;
        }
      }
      r
  }

  /** `sortAndGetLowest`: every element tied at the smallest key. */
  function SortAndGetLowest<T>(targets: seq<T>, key: T -> int): (r: seq<T>)
    ensures r == [] <==> targets == []
    ensures forall x | x in r :: x in targets && forall y | y in targets :: key(x) <= key(y)
    ensures forall x | x in targets && key(x) == Extremum(targets, key, Ascending) :: x in r
    ensures |r| <= |targets|
    ensures targets != [] ==> IsFilterOf(r, targets, KeyEquals(key, Extremum(targets, key, Ascending)))
  {
    SortAndFilter(targets, key, Ascending)
  }

  /** `sortAndGetHighest`: every element tied at the largest key. */
  function SortAndGetHighest<T>(targets: seq<T>, key: T -> int): (r: seq<T>)
    ensures r == [] <==> targets == []
    ensures forall x | x in r :: x in targets && forall y | y in targets :: key(x) >= key(y)
    ensures forall x | x in targets && key(x) == Extremum(targets, key, Descending) :: x in r
    ensures |r| <= |targets|
    ensures targets != [] ==> IsFilterOf(r, targets, KeyEquals(key, Extremum(targets, key, Descending)))
  {
    SortAndFilter(targets, key, Descending)
  }

}
