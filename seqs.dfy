/** Order-preserving filtering of sequences (the `Array.prototype.filter` of the page). */
module Seqs {

  /** The elements of `s` that satisfy `p`, in their original order. */
  function Filter<T(!new)>(s: seq<T>, p: T -> bool): (r: seq<T>)
    ensures |r| <= |s|
    ensures forall x :: x in r <==> x in s && p(x)
    decreases |s|
  {
    if s == [] then []
    else
      assert s == s[..|s| - 1] + [s[|s| - 1]];
      Filter(s[..|s| - 1], p) + (if p(s[|s| - 1]) then [s[|s| - 1]] else [])
  }

  lemma FilterSnoc<T(!new)>(s: seq<T>, y: T, p: T -> bool)
    ensures Filter(s + [y], p) == Filter(s, p) + (if p(y) then [y] else [])
  {
    assert (s + [y])[..|s|] == s;
  }

  /** Appending `y` behind a run whose filter ends in `tail`, when `y` is kept only if `tail` is empty. */
  lemma FilterSnocAfter<T(!new)>(s: seq<T>, y: T, front: seq<T>, tail: seq<T>, p: T -> bool)
    requires Filter(s, p) == front + tail
    requires p(y) ==> tail == []
    ensures Filter(s + [y], p) == front + (if p(y) then [y] else []) + tail
  {
    FilterSnoc(s, y, p);
  }

  /** Filtering distributes over concatenation: the order of the kept elements is the input's. */
  lemma {:induction false} FilterConcat<T(!new)>(a: seq<T>, b: seq<T>, p: T -> bool)
    ensures Filter(a + b, p) == Filter(a, p) + Filter(b, p)
    decreases |b|
  {
    if b == [] {
      assert a + b == a;
    } else {
      var b' := b[..|b| - 1];
      assert (a + b)[..|a + b| - 1] == a + b';
      assert (a + b)[|a + b| - 1] == b[|b| - 1];
      FilterConcat(a, b', p);
    }
  }

  /** A filter that rejects nothing returns its input. */
  lemma {:induction false} FilterKeepsAll<T(!new)>(s: seq<T>, p: T -> bool)
    requires forall i :: 0 <= i < |s| ==> p(s[i])
    ensures Filter(s, p) == s
    decreases |s|
  {
    if s != [] {
      var init, last := s[..|s| - 1], s[|s| - 1];
      assert forall i :: 0 <= i < |init| ==> init[i] == s[i];
      FilterKeepsAll(init, p);
      assert s == init + [last] && p(last);
    }
  }

  /** Every earlier element of `s` stands in relation `before` to every later one. */
  ghost predicate Ordered<T>(s: seq<T>, before: (T, T) -> bool) {
    forall i, j :: 0 <= i < j < |s| ==> before(s[i], s[j])
  }

  /** Any relation that holds between every earlier and later element of `s` still holds in a filter of `s`. */
  lemma {:induction false} FilterKeepsOrder<T(!new)>(s: seq<T>, p: T -> bool, before: (T, T) -> bool)
    requires Ordered(s, before)
    ensures Ordered(Filter(s, p), before)
    decreases |s|
  {
    if s != [] {
      var init, last := s[..|s| - 1], s[|s| - 1];
      FilterKeepsOrder(init, p, before);
      var f := Filter(init, p);
      var r := Filter(s, p);
      assert r == f + (if p(last) then [last] else []);
      forall i, j | 0 <= i < j < |r| ensures before(r[i], r[j]) {
        if j < |f| {
          assert r[i] == f[i] && r[j] == f[j];
          assert before(f[i], f[j]);
        } else {
          assert r[i] == f[i] && r[i] in init && r[j] == last;
          var k :| 0 <= k < |init| && init[k] == r[i];
          assert s[k] == r[i] && before(s[k], s[|s| - 1]);
        }
      }
    }
  }
}
