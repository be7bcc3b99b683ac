/**
 * Subtitle entries and the final `result.sort((a, b) => a.t - b.t)` of the subtitle parser
 * (application/src/composables/useSubtitle.js). JavaScript's Array.prototype.sort is stable, so
 * the model is a stable insertion sort on the entry time, proved sorted, a permutation and stable.
 */
module EntrySort {

  /** One timed fragment: shown once the clock reaches `t` seconds. */
  datatype Entry = Entry(t: real, text: string)

  predicate Sorted(s: seq<Entry>)
  {
    forall i, j :: 0 <= i < j < |s| ==> s[i].t <= s[j].t
  }

  /** The entries of `s` whose time is exactly `time`, in their order in `s`. */
  function AtTime(s: seq<Entry>, time: real): seq<Entry>
  {
    if s == [] then []
    else (if s[0].t == time then [s[0]] else []) + AtTime(s[1..], time)
  }

  /** Puts `e` in front of the first element of `r` that is not earlier than it. */
  function Insert(e: Entry, r: seq<Entry>): seq<Entry>
  {
    if r == [] || e.t <= r[0].t then [e] + r else [r[0]] + Insert(e, r[1..])
  }

  /** The stable insertion sort on the entry time. */
  function SortByTime(s: seq<Entry>): seq<Entry>
  {
    if s == [] then [] else Insert(s[0], SortByTime(s[1..]))
  }

  /** Inserting adds exactly `e` and loses nothing. */
  lemma {:induction false} InsertPermutation(e: Entry, r: seq<Entry>)
    ensures multiset(Insert(e, r)) == multiset(r) + multiset{e}
  {
    if r != [] && e.t > r[0].t {
      InsertPermutation(e, r[1..]);
      assert r == [r[0]] + r[1..];
    }
  }

  /** The sort keeps every entry, each exactly as often as before. */
  lemma {:induction false} SortByTimePermutation(s: seq<Entry>)
    ensures multiset(SortByTime(s)) == multiset(s)
    ensures |SortByTime(s)| == |s|
  {
    if s != [] {
      SortByTimePermutation(s[1..]);
      InsertPermutation(s[0], SortByTime(s[1..]));
      assert s == [s[0]] + s[1..];
    }
    assert |multiset(SortByTime(s))| == |multiset(s)|;
  }

  /** An entry no later than the head of a sorted list can be put in front of it. */
  lemma {:induction false} ConsSorted(x: Entry, s: seq<Entry>)
    requires Sorted(s) && (s == [] || x.t <= s[0].t)
    ensures Sorted([x] + s)
  {
    forall i, j | 0 <= i < j < |[x] + s| ensures ([x] + s)[i].t <= ([x] + s)[j].t {
      if i == 0 {
        assert s[0].t <= s[j - 1].t;
      }
    }
  }

  /** The first element after inserting `e` is `e` or the old first element. */
  lemma {:induction false} InsertHead(e: Entry, r: seq<Entry>)
    ensures Insert(e, r) != [] && Insert(e, r)[0] == if r == [] || e.t <= r[0].t then e else r[0]
  {
  }

  lemma {:induction false} InsertSorted(e: Entry, r: seq<Entry>)
    requires Sorted(r)
    ensures Sorted(Insert(e, r))
  {
    if r == [] || e.t <= r[0].t {
      ConsSorted(e, r);
    } else {
      var r1 := r[1..];
      assert Sorted(r1);
      InsertSorted(e, r1);
      InsertHead(e, r1);
      assert r1 != [] ==> r[0].t <= r1[0].t by {
        if r1 != [] { assert r1[0] == r[1]; }
      }
      ConsSorted(r[0], Insert(e, r1));
    }
  }

  lemma {:induction false} AtTimeCons(x: Entry, y: seq<Entry>, time: real)
    ensures AtTime([x] + y, time) == (if x.t == time then [x] else []) + AtTime(y, time)
  {
    assert ([x] + y)[0] == x;
    assert ([x] + y)[1..] == y;
  }

  /**
   * Inserting keeps equal times in order: `e` only moves past entries that are strictly
   * earlier than it, so none of them has its time.
   */
  lemma {:induction false} InsertStable(e: Entry, r: seq<Entry>, time: real)
    ensures AtTime(Insert(e, r), time) == AtTime([e] + r, time)
  {
    if r != [] && e.t > r[0].t {
      var r1 := r[1..];
      InsertStable(e, r1, time);
      AtTimeCons(r[0], Insert(e, r1), time);
      AtTimeCons(e, r1, time);
      AtTimeCons(e, r, time);
      assert AtTime(r, time) == (if r[0].t == time then [r[0]] else []) + AtTime(r1, time);
    }
  }

  /** The sort orders by time. */
  lemma {:induction false} SortByTimeSorted(s: seq<Entry>)
    ensures Sorted(SortByTime(s))
  {
    if s != [] {
      SortByTimeSorted(s[1..]);
      InsertSorted(s[0], SortByTime(s[1..]));
    }
  }

  /** The sort is stable: entries with equal times keep their original relative order. */
  lemma {:induction false} SortByTimeStable(s: seq<Entry>, time: real)
    ensures AtTime(SortByTime(s), time) == AtTime(s, time)
  {
    if s != [] {
      var sortedTail := SortByTime(s[1..]);
      InsertStable(s[0], sortedTail, time);
      AtTimeCons(s[0], sortedTail, time);
      SortByTimeStable(s[1..], time);
    }
  }

  /** A list that is already in time order is left as it is. */
  lemma {:induction false} SortByTimeKeepsSorted(s: seq<Entry>)
    requires Sorted(s)
    ensures SortByTime(s) == s
  {
    if s != [] {
      assert Sorted(s[1..]);
      SortByTimeKeepsSorted(s[1..]);
    }
  }

  /** Two entries come out in time order, the first one first when their times are equal. */
  lemma {:induction false} SortPair(e1: Entry, e2: Entry)
    ensures SortByTime([e1, e2]) == if e1.t <= e2.t then [e1, e2] else [e2, e1]
  {
    assert [e1, e2][1..] == [e2];
    assert [e2][1..] == [];
    assert SortByTime([e2]) == [e2] by {
      assert Insert(e2, []) == [e2] + [];
    }
    if e1.t <= e2.t {
      assert Insert(e1, [e2]) == [e1] + [e2];
    } else {
      assert Insert(e1, [e2]) == [e2] + Insert(e1, [e2][1..]);
      assert Insert(e1, []) == [e1] + [];
    }
  }
}
