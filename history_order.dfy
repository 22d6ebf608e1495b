/**
 * The ordering of a car's history: `OrderBy(h => DateOnly.Parse(h.Date))`, a
 * stable sort whose key is the item's date text read back as a date.
 *
 * Stable means that items with equal keys keep their input order; together
 * with "sorted" and "a permutation of the input" that determines the result.
 */
module HistoryOrder {
  import opened Wrappers
  import opened Dates
  import opened Models

  /** DateOnly.Parse succeeds on the item's date. */
  predicate HasDate(h: HistoryItem) {
    Parse(h.date).Some?
  }

  predicate AllHaveDates(s: seq<HistoryItem>) {
    forall i :: 0 <= i < |s| ==> HasDate(s[i])
  }

  /** The sort key. */
  function Key(h: HistoryItem): DateOnly
    requires HasDate(h)
  {
    Parse(h.date).value
  }

  predicate SortedByDate(s: seq<HistoryItem>)
    requires AllHaveDates(s)
  {
    forall i, j :: 0 <= i < j < |s| ==> Le(Key(s[i]), Key(s[j]))
  }

  /** The items with the given date, in their order. */
  function WithDate(s: seq<HistoryItem>, d: DateOnly): seq<HistoryItem>
    requires AllHaveDates(s)
  {
    if s == [] then [] else (if Key(s[0]) == d then [s[0]] else []) + WithDate(s[1..], d)
  }

  /** Puts x before the first item whose date is not earlier than x's. */
  function Insert(x: HistoryItem, s: seq<HistoryItem>): (r: seq<HistoryItem>)
    requires HasDate(x) && AllHaveDates(s)
    ensures AllHaveDates(r)
    ensures multiset(r) == multiset(s) + multiset{x}
  {
    if s == [] || Le(Key(x), Key(s[0])) then [x] + s
    else
      var rest := Insert(x, s[1..]);
      assert s == [s[0]] + s[1..];
      [s[0]] + rest
  }

  /** A stable sort by date: an item goes before every later item with an equal or later date. */
  function OrderByDate(s: seq<HistoryItem>): (r: seq<HistoryItem>)
    requires AllHaveDates(s)
    ensures AllHaveDates(r)
    ensures multiset(r) == multiset(s)
  {
    if s == [] then []
    else
      assert s == [s[0]] + s[1..];
      Insert(s[0], OrderByDate(s[1..]))
  }

  /** Every item is dated d or later. */
  predicate AllFrom(s: seq<HistoryItem>, d: DateOnly)
    requires AllHaveDates(s)
  {
    forall i :: 0 <= i < |s| ==> Le(d, Key(s[i]))
  }

  lemma {:induction false} InsertFrom(x: HistoryItem, s: seq<HistoryItem>, d: DateOnly)
    requires HasDate(x) && AllHaveDates(s) && AllFrom(s, d) && Le(d, Key(x))
    ensures AllFrom(Insert(x, s), d)
    decreases |s|
  {
    if s != [] && !Le(Key(x), Key(s[0])) {
      InsertFrom(x, s[1..], d);
      var r := Insert(x, s);
      assert r == [s[0]] + Insert(x, s[1..]);
      forall i | 0 <= i < |r| ensures Le(d, Key(r[i])) {
        if i > 0 { assert r[i] == Insert(x, s[1..])[i - 1]; }
      }
    }
  }

  lemma ConsSorted(h: HistoryItem, t: seq<HistoryItem>)
    requires HasDate(h) && AllHaveDates(t) && SortedByDate(t) && AllFrom(t, Key(h))
    ensures AllHaveDates([h] + t) && SortedByDate([h] + t)
  {
    var r := [h] + t;
    forall i, j | 0 <= i < j < |r| ensures Le(Key(r[i]), Key(r[j])) {
      assert r[j] == t[j - 1];
      if i > 0 { assert r[i] == t[i - 1]; }
    }
  }

  lemma {:induction false} InsertSorted(x: HistoryItem, s: seq<HistoryItem>)
    requires HasDate(x) && AllHaveDates(s) && SortedByDate(s)
    ensures SortedByDate(Insert(x, s))
    decreases |s|
  {
    if s == [] || Le(Key(x), Key(s[0])) {
      forall i | 0 <= i < |s| ensures Le(Key(x), Key(s[i])) {
        if i > 0 { assert Le(Key(s[0]), Key(s[i])); }
      }
      ConsSorted(x, s);
    } else {
      InsertSorted(x, s[1..]);
      assert SortedByDate(s[1..]) by {
        forall i, j | 0 <= i < j < |s| - 1 ensures Le(Key(s[1..][i]), Key(s[1..][j])) {
          assert s[1..][i] == s[i + 1] && s[1..][j] == s[j + 1];
        }
      }
      forall i | 0 <= i < |s[1..]| ensures Le(Key(s[0]), Key(s[1..][i])) {
        assert s[1..][i] == s[i + 1];
      }
      InsertFrom(x, s[1..], Key(s[0]));
      ConsSorted(s[0], Insert(x, s[1..]));
    }
  }

  /** The result is sorted by date. */
  lemma {:induction false} OrderByDateSorted(s: seq<HistoryItem>)
    requires AllHaveDates(s)
    ensures SortedByDate(OrderByDate(s))
  {
    if s != [] {
      OrderByDateSorted(s[1..]);
      InsertSorted(s[0], OrderByDate(s[1..]));
    }
  }

  lemma WithDateCons(h: HistoryItem, t: seq<HistoryItem>, d: DateOnly)
    requires HasDate(h) && AllHaveDates(t)
    ensures AllHaveDates([h] + t)
    ensures WithDate([h] + t, d) == (if Key(h) == d then [h] else []) + WithDate(t, d)
  {
    assert ([h] + t)[0] == h;
    assert ([h] + t)[1..] == t;
  }

  lemma {:induction false} InsertWithDate(x: HistoryItem, s: seq<HistoryItem>, d: DateOnly)
    requires HasDate(x) && AllHaveDates(s) && SortedByDate(s)
    ensures WithDate(Insert(x, s), d) == (if Key(x) == d then [x] else []) + WithDate(s, d)
    decreases |s|
  {
    if s == [] || Le(Key(x), Key(s[0])) {
      WithDateCons(x, s, d);
    } else {
      var rest := Insert(x, s[1..]);
      assert Insert(x, s) == [s[0]] + rest;
      assert s == [s[0]] + s[1..];
      WithDateCons(s[0], rest, d);
      WithDateCons(s[0], s[1..], d);
      InsertWithDate(x, s[1..], d);
      if Key(s[0]) == d {
        assert Key(x) != d;
      }
    }
  }

  /** The sort is stable: the items of any one date keep their input order. */
  lemma {:induction false} OrderByDateStable(s: seq<HistoryItem>, d: DateOnly)
    requires AllHaveDates(s)
    ensures WithDate(OrderByDate(s), d) == WithDate(s, d)
  {
    if s != [] {
      OrderByDateStable(s[1..], d);
      OrderByDateSorted(s[1..]);
      InsertWithDate(s[0], OrderByDate(s[1..]), d);
    }
  }
}
