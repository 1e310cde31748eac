/** `sorted(new_comments_found, key=lambda x: x['time'])`: Python's stable sort by time. */
module Sorting {
  import opened Api

  predicate SortedByTime(xs: seq<Record>) {
    forall i, j | 0 <= i < j < |xs| :: xs[i].time <= xs[j].time
  }

  /** Inserts `x` after every element whose time is not later than its own. */
  function Insert(ys: seq<Record>, x: Record): seq<Record> {
    if ys == [] || ys[|ys| - 1].time <= x.time then ys + [x]
    else Insert(ys[..|ys| - 1], x) + [ys[|ys| - 1]]
  }

  /** Inserting adds exactly one element and loses none. */
  lemma {:induction false} InsertPermutes(ys: seq<Record>, x: Record)
    ensures multiset(Insert(ys, x)) == multiset(ys) + multiset{x}
  {
    if !(ys == [] || ys[|ys| - 1].time <= x.time) {
      var init := ys[..|ys| - 1];
      InsertPermutes(init, x);
      assert ys == init + [ys[|ys| - 1]];
    }
  }

  /** Inserting into a sorted list keeps it sorted. */
  lemma {:induction false} InsertSorted(ys: seq<Record>, x: Record)
    requires SortedByTime(ys)
    ensures SortedByTime(Insert(ys, x))
    decreases |ys|, 1
  {
    if ys == [] || ys[|ys| - 1].time <= x.time {
      assert Insert(ys, x) == ys + [x];
    } else {
      var init, last := ys[..|ys| - 1], ys[|ys| - 1];
      assert ys == init + [last];
      InsertSortedBefore(init, last, x);
    }
  }

  /** The case where `x` goes before a later last record. */
  lemma {:induction false} InsertSortedBefore(init: seq<Record>, last: Record, x: Record)
    requires SortedByTime(init + [last]) && x.time < last.time
    ensures SortedByTime(Insert(init + [last], x))
    decreases |init| + 1, 0
  {
    var ys := init + [last];
    assert ys[..|ys| - 1] == init;
    assert SortedByTime(init) by {
      forall i, j | 0 <= i < j < |init| ensures init[i].time <= init[j].time {
        assert ys[i] == init[i] && ys[j] == init[j];
      }
    }
    forall e | e in init ensures e.time <= last.time {
      var i :| 0 <= i < |init| && init[i] == e;
      assert ys[i] == e && ys[|init|] == last;
    }
    var r := Insert(init, x);
    InsertSorted(init, x);
    InsertPermutes(init, x);
    forall e | e in r ensures e.time <= last.time {
      assert e in multiset(r);
      assert e in init || e == x;
    }
    assert Insert(ys, x) == r + [last];
    forall i, j | 0 <= i < j < |r| + 1 ensures (r + [last])[i].time <= (r + [last])[j].time {
      if j == |r| {
        assert (r + [last])[i] in r;
      }
    }
  }

  /** Insertion sort on the records, oldest first. */
  function SortByTime(xs: seq<Record>): (r: seq<Record>)
    ensures SortedByTime(r)
    ensures multiset(r) == multiset(xs)
  {
    if xs == [] then []
    else
      assert xs == xs[..|xs| - 1] + [xs[|xs| - 1]];
      var init := SortByTime(xs[..|xs| - 1]);
      InsertSorted(init, xs[|xs| - 1]);
      InsertPermutes(init, xs[|xs| - 1]);
      Insert(init, xs[|xs| - 1])
  }

  /** The records whose time is `t`, in their order. */
  function OfTime(xs: seq<Record>, t: int): seq<Record> {
    if xs == [] then []
    else OfTime(xs[..|xs| - 1], t) + (if xs[|xs| - 1].time == t then [xs[|xs| - 1]] else [])
  }

  lemma {:induction false} OfTimeAppend(xs: seq<Record>, y: Record, t: int)
    ensures OfTime(xs + [y], t) == OfTime(xs, t) + (if y.time == t then [y] else [])
  {
    assert (xs + [y])[..|xs|] == xs;
  }

  /** Inserting puts `x` after every record with the same time. */
  lemma {:induction false} InsertOfTime(ys: seq<Record>, x: Record, t: int)
    ensures OfTime(Insert(ys, x), t) == OfTime(ys, t) + (if x.time == t then [x] else [])
    decreases |ys|, 1
  {
    if ys == [] || ys[|ys| - 1].time <= x.time {
      assert Insert(ys, x) == ys + [x];
      OfTimeAppend(ys, x, t);
    } else {
      var init, last := ys[..|ys| - 1], ys[|ys| - 1];
      assert ys == init + [last];
      InsertOfTimeBefore(init, last, x, t);
    }
  }

  /** The case where `x` goes before a later last record. */
  lemma {:induction false} InsertOfTimeBefore(init: seq<Record>, last: Record, x: Record, t: int)
    requires x.time < last.time
    ensures OfTime(Insert(init + [last], x), t) == OfTime(init + [last], t) + (if x.time == t then [x] else [])
    decreases |init| + 1, 0
  {
    var ys := init + [last];
    assert ys[..|ys| - 1] == init;
    var inserted := Insert(init, x);
    assert Insert(ys, x) == inserted + [last];
    InsertOfTime(init, x, t);
    OfTimeAppend(inserted, last, t);
    OfTimeAppend(init, last, t);
    if x.time == t {
      assert OfTime(inserted, t) + [] == OfTime(inserted, t);
      assert OfTime(init, t) + [] == OfTime(init, t);
    } else {
      assert OfTime(init, t) + [] == OfTime(init, t);
    }
  }

  /** Stability: records with equal times keep their original relative order. */
  lemma {:induction false} SortByTimeStable(xs: seq<Record>, t: int)
    ensures OfTime(SortByTime(xs), t) == OfTime(xs, t)
  {
    if xs != [] {
      var init, last := xs[..|xs| - 1], xs[|xs| - 1];
      var sortedInit := SortByTime(init);
      assert SortByTime(xs) == Insert(sortedInit, last);
      SortByTimeStable(init, t);
      InsertOfTime(sortedInit, last, t);
      assert OfTime(xs, t) == OfTime(init, t) + (if last.time == t then [last] else []);
    }
  }

  /** A list already in time order is left as it is; hence sorting twice equals sorting once. */
  lemma {:induction false} SortByTimeOfSorted(xs: seq<Record>)
    requires SortedByTime(xs)
    ensures SortByTime(xs) == xs
  {
    if xs != [] {
      var init, last := xs[..|xs| - 1], xs[|xs| - 1];
      assert SortedByTime(init);
      SortByTimeOfSorted(init);
      assert init + [last] == xs;
    }
  }

  lemma SortByTimeIdempotent(xs: seq<Record>)
    ensures SortByTime(SortByTime(xs)) == SortByTime(xs)
  {
    SortByTimeOfSorted(SortByTime(xs));
  }
}
