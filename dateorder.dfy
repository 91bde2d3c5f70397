/**
 * `sortedMilestones`: the milestones that have a date, sorted ascending by the
 * date `parseDate` reads from them. The engine's sort is stable, so it is
 * modelled by a stable insertion sort on that key. The sort and its lemmas are
 * stated for any key function; the page's key is `DateKey()`.
 */
module DateOrder {
  import opened Wrappers
  import opened Milestones
  import opened Dates
  import Seqs

  type KeyFn = Milestone -> Option<CalDate>

  /** Chronological order of calendar dates. */
  predicate DateLeq(a: CalDate, b: CalDate) {
    a.year < b.year
    || (a.year == b.year && (a.month < b.month || (a.month == b.month && a.day <= b.day)))
  }

  /** The order on sort keys: parsed dates chronologically, then every unparsable date. */
  predicate KeyLeq(a: Option<CalDate>, b: Option<CalDate>) {
    match a
    case None => b.None?
    case Some(x) => b.None? || DateLeq(x, b.value)
  }

  /** KeyLeq is a total order. */
  lemma KeyLeqIsTotalOrder()
    ensures forall a :: KeyLeq(a, a)
    ensures forall a, b :: KeyLeq(a, b) || KeyLeq(b, a)
    ensures forall a, b :: KeyLeq(a, b) && KeyLeq(b, a) ==> a == b
    ensures forall a, b, c :: KeyLeq(a, b) && KeyLeq(b, c) ==> KeyLeq(a, c)
  {
  }

  /** The reflexive case of KeyLeqIsTotalOrder for one key. Proofs that need only this case call it,
      so that totality and transitivity, quantified over all keys, stay out of their context. */
  lemma KeyLeqReflexive(a: Option<CalDate>)
    ensures KeyLeq(a, a)
  {
  }

  /** The page's sort key: the date `parseDate` reads from a milestone. */
  function DateKey(): (key: KeyFn)
    ensures forall m :: key(m) == ParseDate(m.date)
  {
    (m: Milestone) => ParseDate(m.date)
  }

  predicate SortedBy(s: seq<Milestone>, key: KeyFn) {
    forall i, j :: 0 <= i < j < |s| ==> KeyLeq(key(s[i]), key(s[j]))
  }

  /** Places `x` after every element whose key is not greater than its own. */
  function Insert(t: seq<Milestone>, x: Milestone, key: KeyFn): (r: seq<Milestone>)
    ensures multiset(r) == multiset(t) + multiset{x}
    decreases |t|
  {
    if t == [] then [x]
    else if KeyLeq(key(t[|t| - 1]), key(x)) then t + [x]
    else
      assert t == t[..|t| - 1] + [t[|t| - 1]];
      Insert(t[..|t| - 1], x, key) + [t[|t| - 1]]
  }

  lemma SortedPrefix(t: seq<Milestone>, n: nat, key: KeyFn)
    requires SortedBy(t, key) && n <= |t|
    ensures SortedBy(t[..n], key)
  {
    var p := t[..n];
    assert forall i :: 0 <= i < n ==> p[i] == t[i];
  }

  lemma {:induction false} InsertSorted(t: seq<Milestone>, x: Milestone, key: KeyFn)
    requires SortedBy(t, key)
    ensures SortedBy(Insert(t, x, key), key)
    decreases |t|
  {
    KeyLeqIsTotalOrder();
    if t != [] {
      var init, last := t[..|t| - 1], t[|t| - 1];
      if KeyLeq(key(last), key(x)) {
        var r := t + [x];
        forall i, j | 0 <= i < j < |r| ensures KeyLeq(key(r[i]), key(r[j])) {
          if j == |t| && i < |t| - 1 {
            assert KeyLeq(key(t[i]), key(last));
          }
        }
      } else {
        SortedPrefix(t, |t| - 1, key);
        InsertSorted(init, x, key);
        var r' := Insert(init, x, key);
        var r := r' + [last];
        forall i, j | 0 <= i < j < |r| ensures KeyLeq(key(r[i]), key(r[j])) {
          if j == |r'| {
            assert r[i] == r'[i] && r'[i] in multiset(r');
            if r'[i] != x {
              assert r'[i] in multiset(init);
              var k :| 0 <= k < |init| && init[k] == r'[i];
              assert t[k] == init[k] && KeyLeq(key(t[k]), key(t[|t| - 1]));
            }
          } else {
            assert r[i] == r'[i] && r[j] == r'[j];
          }
        }
      }
    }
  }

  /** Stable ascending sort by `key`. */
  function SortBy(s: seq<Milestone>, key: KeyFn): (r: seq<Milestone>)
    ensures SortedBy(r, key)
    ensures multiset(r) == multiset(s)
    decreases |s|
  {
    if s == [] then []
    else
      var rest := SortBy(s[..|s| - 1], key);
      InsertSorted(rest, s[|s| - 1], key);
      assert s == s[..|s| - 1] + [s[|s| - 1]];
      Insert(rest, s[|s| - 1], key)
  }

  function HasKey(key: KeyFn, k: Option<CalDate>): Milestone -> bool {
    (m: Milestone) => key(m) == k
  }

  /** Inserting keeps the elements of one key in order and puts `x` after those equal to it. */
  lemma {:induction false} InsertStable(t: seq<Milestone>, x: Milestone, key: KeyFn, k: Option<CalDate>)
    requires SortedBy(t, key)
    ensures Seqs.Filter(Insert(t, x, key), HasKey(key, k))
         == Seqs.Filter(t, HasKey(key, k)) + (if key(x) == k then [x] else [])
    decreases |t|
  {
    var p := HasKey(key, k);
    if t == [] {
      Seqs.FilterSnoc([], x, p);
    } else if KeyLeq(key(t[|t| - 1]), key(x)) {
      Seqs.FilterSnoc(t, x, p);
    } else {
      var init, last := t[..|t| - 1], t[|t| - 1];
      var r' := Insert(init, x, key);
      var fi := Seqs.Filter(init, p);
      assert Seqs.Filter(r', p) == fi + (if key(x) == k then [x] else []) by {
        SortedPrefix(t, |t| - 1, key);
        InsertStable(init, x, key, k);
      }
      assert Seqs.Filter(t, p) == fi + (if p(last) then [last] else []) by {
        assert t == init + [last];
        Seqs.FilterSnoc(init, last, p);
      }
      assert Insert(t, x, key) == r' + [last];
      KeyLeqReflexive(key(x));
      Seqs.FilterSnocAfter(r', last, fi, if key(x) == k then [x] else [], p);
    }
  }

  /** Sorting is stable: the elements of any one key keep their relative order. */
  lemma {:induction false} SortStable(s: seq<Milestone>, key: KeyFn, k: Option<CalDate>)
    ensures Seqs.Filter(SortBy(s, key), HasKey(key, k)) == Seqs.Filter(s, HasKey(key, k))
    decreases |s|
  {
    if s != [] {
      var init := s[..|s| - 1];
      SortStable(init, key, k);
      InsertStable(SortBy(init, key), s[|s| - 1], key, k);
    }
  }

  function HasDate(): Milestone -> bool {
    (m: Milestone) => m.date != ""
  }

  /** `[...mileStones].filter(m => m.date).sort(byParsedDate)`. */
  function SortedMilestones(ms: seq<Milestone>): (r: seq<Milestone>)
    ensures multiset(r) == multiset(Seqs.Filter(ms, HasDate()))
    ensures forall m :: m in r <==> m in ms && m.date != ""
    ensures SortedBy(r, DateKey())
    ensures forall i, j ::
      0 <= i < j < |r| && ParseDate(r[i].date).Some? && ParseDate(r[j].date).Some? ==>
        DateLeq(ParseDate(r[i].date).value, ParseDate(r[j].date).value)
  {
    var f := Seqs.Filter(ms, HasDate());
    var r := SortBy(f, DateKey());
    assert forall m :: m in r <==> m in f by {
      forall m ensures m in r <==> m in f {
        calc {
          m in r;
          m in multiset(r);
          m in multiset(f);
          m in f;
        }
      }
    }
    r
  }

  /** Milestones of the same parsed date appear in the view in collection order. */
  lemma SortedMilestonesStable(ms: seq<Milestone>, k: Option<CalDate>)
    ensures Seqs.Filter(SortedMilestones(ms), HasKey(DateKey(), k))
         == Seqs.Filter(Seqs.Filter(ms, HasDate()), HasKey(DateKey(), k))
  {
    SortStable(Seqs.Filter(ms, HasDate()), DateKey(), k);
  }

  /** A date written day-first and the same date written ISO sort as equals. */
  lemma BothFormatsSortAlike(a: Milestone, b: Milestone, c: CalDate)
    requires ValidDate(c) && 0 <= c.year < 10000
    requires a.date == IsoString(c) && b.date == DayFirstString(c)
    ensures DateKey()(a) == DateKey()(b) == Some(c)
    ensures KeyLeq(DateKey()(a), DateKey()(b)) && KeyLeq(DateKey()(b), DateKey()(a))
  {
    ParseFormatted(c);
    KeyLeqIsTotalOrder();
  }
}
