/**
 * `groupedByYear` and the year headings: the sorted view bucketed by year
 * (the `reduce` that pushes each item onto `acc[year]`), and the bucket keys
 * listed newest year first. The year of a date string is the engine's
 * `new Date(raw).getFullYear()`, which the model takes as a parameter `yearOf`
 * (`None` where the engine yields NaN).
 */
module YearGroups {
  import opened Wrappers
  import opened Milestones
  import opened Dates
  import opened DateOrder
  import Seqs

  type YearFn = string -> Option<int>

  function InYear(yearOf: YearFn, y: int): Milestone -> bool {
    (m: Milestone) => yearOf(m.date) == Some(y)
  }

  /** Bucket `y`: the items of `s` whose year is `y`, in the order of `s`. */
  function Bucket(s: seq<Milestone>, yearOf: YearFn, y: int): (b: seq<Milestone>)
    ensures forall m :: m in b <==> m in s && yearOf(m.date) == Some(y)
  {
    Seqs.Filter(s, InYear(yearOf, y))
  }

  /** The years that occur among the items of `s`. */
  function YearsIn(s: seq<Milestone>, yearOf: YearFn): set<int> {
    set i | 0 <= i < |s| && yearOf(s[i].date).Some? :: yearOf(s[i].date).value
  }

  predicate Distinct(ys: seq<int>) {
    forall i, j :: 0 <= i < j < |ys| ==> ys[i] != ys[j]
  }

  predicate StrictlyDescending(ys: seq<int>) {
    forall i, j :: 0 <= i < j < |ys| ==> ys[i] > ys[j]
  }

  lemma BucketSnoc(s: seq<Milestone>, item: Milestone, yearOf: YearFn, y: int)
    ensures yearOf(item.date) == Some(y) ==> Bucket(s + [item], yearOf, y) == Bucket(s, yearOf, y) + [item]
    ensures yearOf(item.date) != Some(y) ==> Bucket(s + [item], yearOf, y) == Bucket(s, yearOf, y)
  {
    Seqs.FilterSnoc(s, item, InYear(yearOf, y));
  }

  lemma YearsInSnoc(s: seq<Milestone>, item: Milestone, yearOf: YearFn)
    ensures yearOf(item.date).None? ==> YearsIn(s + [item], yearOf) == YearsIn(s, yearOf)
    ensures yearOf(item.date).Some? ==>
      YearsIn(s + [item], yearOf) == YearsIn(s, yearOf) + {yearOf(item.date).value}
  {
    var s' := s + [item];
    assert forall i :: 0 <= i < |s| ==> s'[i] == s[i];
    assert s'[|s|] == item;
  }

  /** A non-empty bucket belongs to a year that occurs in `s`. */
  lemma NonEmptyBucketYear(s: seq<Milestone>, yearOf: YearFn, y: int)
    ensures Bucket(s, yearOf, y) != [] ==> y in YearsIn(s, yearOf)
  {
    var b := Bucket(s, yearOf, y);
    if b != [] {
      assert b[0] in s;
      var i :| 0 <= i < |s| && s[i] == b[0];
      assert yearOf(s[i].date) == Some(y);
    }
  }

  /** `groups` buckets the prefix `p` by year and `keys` lists its years, each once. */
  ghost predicate Grouped(p: seq<Milestone>, yearOf: YearFn, groups: map<int, seq<Milestone>>, keys: seq<int>) {
    && groups.Keys == YearsIn(p, yearOf)
    && (forall y :: y in groups ==> groups[y] == Bucket(p, yearOf, y))
    && (forall y :: y in keys <==> y in groups)
    && Distinct(keys)
  }

  /** An item without a year leaves the grouping as it is. */
  lemma GroupedSnocNone(s: seq<Milestone>, i: nat, yearOf: YearFn,
                        groups: map<int, seq<Milestone>>, keys: seq<int>)
    requires i < |s| && Grouped(s[..i], yearOf, groups, keys) && yearOf(s[i].date).None?
    ensures Grouped(s[..i + 1], yearOf, groups, keys)
  {
    var p, item := s[..i], s[i];
    assert s[..i + 1] == p + [item];
    YearsInSnoc(p, item, yearOf);
    forall y | y in groups ensures groups[y] == Bucket(p + [item], yearOf, y) {
      BucketSnoc(p, item, yearOf, y);
    }
  }

  /** An item of year `y` is pushed onto bucket `y`, which is opened (and its year listed) if new. */
  lemma GroupedPush(p: seq<Milestone>, item: Milestone, yearOf: YearFn, y: int,
                    g0: map<int, seq<Milestone>>, k0: seq<int>,
                    groups: map<int, seq<Milestone>>, keys: seq<int>)
    requires Grouped(p, yearOf, g0, k0) && yearOf(item.date) == Some(y)
    requires y in g0 ==> groups == g0[y := g0[y] + [item]] && keys == k0
    requires y !in g0 ==> groups == g0[y := [item]] && keys == k0 + [y]
    ensures Grouped(p + [item], yearOf, groups, keys)
  {
    YearsInSnoc(p, item, yearOf);
    forall z | z in groups ensures groups[z] == Bucket(p + [item], yearOf, z) {
      BucketSnoc(p, item, yearOf, z);
      if z == y && y !in g0 {
        NonEmptyBucketYear(p, yearOf, y);
        assert Bucket(p, yearOf, y) == [];
      }
    }
    if y !in g0 {
      forall i, j | 0 <= i < j < |keys| ensures keys[i] != keys[j] {
        if j == |k0| {
          assert keys[i] == k0[i] && k0[i] in g0;
        } else {
          assert keys[i] == k0[i] && keys[j] == k0[j];
        }
      }
    }
  }

  /** The loop step of `GroupByYear` for an item with a year. */
  lemma GroupedSnocSome(s: seq<Milestone>, i: nat, yearOf: YearFn, y: int,
                        g0: map<int, seq<Milestone>>, k0: seq<int>,
                        groups: map<int, seq<Milestone>>, keys: seq<int>)
    requires i < |s| && Grouped(s[..i], yearOf, g0, k0) && yearOf(s[i].date) == Some(y)
    requires y in g0 ==> groups == g0[y := g0[y] + [s[i]]] && keys == k0
    requires y !in g0 ==> groups == g0[y := [s[i]]] && keys == k0 + [y]
    ensures Grouped(s[..i + 1], yearOf, groups, keys)
  {
    assert s[..i + 1] == s[..i] + [s[i]];
    GroupedPush(s[..i], s[i], yearOf, y, g0, k0, groups, keys);
  }

  /** The `reduce` of lines 122-128: one pass over the sorted view, appending each dated item to its year's bucket.
      `keys` lists the buckets' years, each once. */
  method GroupByYear(s: seq<Milestone>, yearOf: YearFn) returns (groups: map<int, seq<Milestone>>, keys: seq<int>)
    ensures groups.Keys == YearsIn(s, yearOf)
    ensures forall y :: y in groups ==> groups[y] == Bucket(s, yearOf, y)
    ensures forall y :: y in keys <==> y in groups
    ensures Distinct(keys)
  {
    groups, keys := map[], [];
    var i := 0;
    while i < |s|
      invariant 0 <= i <= |s|
      invariant Grouped(s[..i], yearOf, groups, keys)
    {
      var item := s[i];
      var year := yearOf(item.date);
      if year.Some? {
        var y := year.value;
        ghost var g0, k0 := groups, keys;
        if y in groups {
          groups := groups[y := groups[y] + [item]];
        } else {
          // a new year opens its bucket with the item and lists the year
          groups := groups[y := [item]];
          keys := keys + [y];
        }
        GroupedSnocSome(s, i, yearOf, y, g0, k0, groups, keys);
      } else {
        GroupedSnocNone(s, i, yearOf, groups, keys);
      }
      i := i + 1;
    }
    assert s[..i] == s;
  }

  /** Each bucket is a subsequence of the view: bucketing distributes over concatenation. */
  lemma BucketConcat(a: seq<Milestone>, b: seq<Milestone>, yearOf: YearFn, y: int)
    ensures Bucket(a + b, yearOf, y) == Bucket(a, yearOf, y) + Bucket(b, yearOf, y)
  {
    Seqs.FilterConcat(a, b, InYear(yearOf, y));
  }

  /** Buckets of a date-sorted view are themselves date-sorted. */
  lemma BucketKeepsDateOrder(s: seq<Milestone>, key: KeyFn, yearOf: YearFn, y: int)
    requires SortedBy(s, key)
    ensures SortedBy(Bucket(s, yearOf, y), key)
  {
    var before := (a: Milestone, b: Milestone) => KeyLeq(key(a), key(b));
    assert Seqs.Ordered(s, before);
    Seqs.FilterKeepsOrder(s, InYear(yearOf, y), before);
    var r := Bucket(s, yearOf, y);
    assert Seqs.Ordered(r, before);
  }

  lemma DescendingTail(t: seq<int>)
    requires StrictlyDescending(t) && t != []
    ensures StrictlyDescending(t[1..])
    ensures forall z :: z in t[1..] ==> z < t[0]
  {
    var tail := t[1..];
    forall i, j | 0 <= i < j < |tail| ensures tail[i] > tail[j] {
      assert tail[i] == t[i + 1] && tail[j] == t[j + 1];
    }
    forall z | z in tail ensures z < t[0] {
      var k :| 0 <= k < |tail| && tail[k] == z;
      assert t[k + 1] == z;
    }
  }

  lemma DescendingCons(x: int, r: seq<int>)
    requires StrictlyDescending(r) && forall z :: z in r ==> z < x
    ensures StrictlyDescending([x] + r)
  {
    var r' := [x] + r;
    forall i, j | 0 <= i < j < |r'| ensures r'[i] > r'[j] {
      assert r'[j] == r[j - 1] && r[j - 1] in r;
      if i > 0 {
        assert r'[i] == r[i - 1];
      }
    }
  }

  /** Places a year, absent from a descending list, at its position. */
  function InsertDescending(t: seq<int>, y: int): (r: seq<int>)
    requires StrictlyDescending(t) && y !in t
    ensures StrictlyDescending(r)
    ensures forall z :: z in r <==> z in t || z == y
    ensures |r| == |t| + 1
    decreases |t|
  {
    if t == [] then [y]
    else if t[0] < y then
      DescendingCons(y, t);
      [y] + t
    else
      DescendingTail(t);
      assert t == [t[0]] + t[1..];
      var rest := InsertDescending(t[1..], y);
      DescendingCons(t[0], rest);
      [t[0]] + rest
  }

  /** `Object.keys(groupedByYear).sort((a, b) => b - a)`: the years, newest first. */
  function YearsDescending(keys: seq<int>): (r: seq<int>)
    requires Distinct(keys)
    ensures StrictlyDescending(r)
    ensures forall z :: z in r <==> z in keys
    ensures |r| == |keys|
    decreases |keys|
  {
    if keys == [] then []
    else
      assert forall i, j :: 0 <= i < j < |keys| - 1 ==> keys[1..][i] == keys[i + 1] && keys[1..][j] == keys[j + 1];
      assert keys[0] !in keys[1..];
      InsertDescending(YearsDescending(keys[1..]), keys[0])
  }
}
