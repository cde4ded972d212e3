/** `publications.sort(key=lambda x: x['year'], reverse=True)`: Python's sort
    is stable, also in reverse, so publications of one year keep the order in
    which the file listed them. The sort is specified here by an insertion
    sort, with its properties and an independent characterisation proved. */
module Ordering {
  import opened Entries

  /** Non-increasing in year. */
  predicate SortedByYearDesc(s: seq<Publication>) {
    forall i, j :: 0 <= i < j < |s| ==> s[i].year >= s[j].year
  }

  /** The publications of year `y`, in their order in `s`. */
  function WithYear(s: seq<Publication>, y: nat): seq<Publication> {
    if s == [] then []
    else (if s[0].year == y then [s[0]] else []) + WithYear(s[1..], y)
  }

  /** Places `p` in front of the first publication whose year is not later than its own. */
  function InsertByYear(p: Publication, s: seq<Publication>): (r: seq<Publication>)
    ensures |r| == |s| + 1
    ensures multiset(r) == multiset(s) + multiset{p}
  {
    if s == [] || s[0].year <= p.year then [p] + s
    else
      assert s == [s[0]] + s[1..];
      [s[0]] + InsertByYear(p, s[1..])
  }

  /** Insertion keeps a list sorted. */
  lemma {:induction false} InsertSorted(p: Publication, s: seq<Publication>)
    requires SortedByYearDesc(s)
    ensures SortedByYearDesc(InsertByYear(p, s))
    decreases |s|
  {
    if s == [] || s[0].year <= p.year {
      var r := [p] + s;
      forall i, j | 0 <= i < j < |r| ensures r[i].year >= r[j].year {
        if i == 0 {
          assert r[j] == s[j - 1];
        } else {
          assert r[i] == s[i - 1] && r[j] == s[j - 1];
        }
      }
    } else {
      var rest := InsertByYear(p, s[1..]);
      InsertSorted(p, s[1..]);
      var r := [s[0]] + rest;
      InsertBelow(p, s[1..], s[0].year);
      forall i, j | 0 <= i < j < |r| ensures r[i].year >= r[j].year {
        if i == 0 {
          assert r[j] == rest[j - 1];
        } else {
          assert r[i] == rest[i - 1] && r[j] == rest[j - 1];
        }
      }
    }
  }

  /** Insertion keeps every year at most a bound that all inputs respect. */
  lemma {:induction false} InsertBelow(p: Publication, s: seq<Publication>, bound: nat)
    requires p.year <= bound
    requires forall k :: 0 <= k < |s| ==> s[k].year <= bound
    ensures forall k :: 0 <= k < |InsertByYear(p, s)| ==> InsertByYear(p, s)[k].year <= bound
    decreases |s|
  {
    if s != [] && s[0].year > p.year {
      InsertBelow(p, s[1..], bound);
    }
  }

  /** The publications sorted by year, latest first, ties in their original order. */
  function SortByYearDesc(s: seq<Publication>): (r: seq<Publication>)
    ensures |r| == |s|
    ensures multiset(r) == multiset(s)
    ensures SortedByYearDesc(r)
  {
    if s == [] then []
    else
      assert s == [s[0]] + s[1..];
      InsertSorted(s[0], SortByYearDesc(s[1..]));
      InsertByYear(s[0], SortByYearDesc(s[1..]))
  }

  /** Inserting `p` adds it in front of its own year's publications and leaves
      every other year's untouched. */
  lemma {:induction false} WithYearInsert(p: Publication, s: seq<Publication>, y: nat)
    ensures WithYear(InsertByYear(p, s), y) == if p.year == y then [p] + WithYear(s, y) else WithYear(s, y)
    decreases |s|
  {
    if s == [] || s[0].year <= p.year {
      var r := [p] + s;
      assert r[1..] == s;
    } else {
      var rest := InsertByYear(p, s[1..]);
      var r := [s[0]] + rest;
      assert r[0] == s[0] && r[1..] == rest;
      WithYearInsert(p, s[1..], y);
    }
  }

  /** Stability: within each year the sorted list keeps the input order. */
  lemma {:induction false} SortStable(s: seq<Publication>, y: nat)
    ensures WithYear(SortByYearDesc(s), y) == WithYear(s, y)
    decreases |s|
  {
    if s != [] {
      SortStable(s[1..], y);
      WithYearInsert(s[0], SortByYearDesc(s[1..]), y);
    }
  }

  /** A publication of year `y` occurs in `s` when `s` has one of year `y`. */
  lemma {:induction false} WithYearMember(s: seq<Publication>, y: nat)
    requires WithYear(s, y) != []
    ensures exists i :: 0 <= i < |s| && s[i].year == y
    decreases |s|
  {
    if s[0].year != y {
      WithYearMember(s[1..], y);
      var i :| 0 <= i < |s[1..]| && s[1..][i].year == y;
      assert s[i + 1].year == y;
    }
  }

  /** A non-empty list has publications of its first publication's year. */
  lemma WithYearHead(r: seq<Publication>)
    ensures r != [] ==> WithYear(r, r[0].year) != []
  {
  }

  /** Two lists sorted by year with the same publications of every year, in
      the same order, are the same list. */
  lemma {:induction false} SortedSameYearsEqual(r1: seq<Publication>, r2: seq<Publication>)
    requires SortedByYearDesc(r1) && SortedByYearDesc(r2)
    requires forall y :: WithYear(r1, y) == WithYear(r2, y)
    ensures r1 == r2
    decreases |r1|
  {
    if r1 == [] {
      if r2 != [] {
        WithYearHead(r2);
        assert false;
      }
    } else if r2 == [] {
      WithYearHead(r1);
      assert false;
    } else {
      var y1, y2 := r1[0].year, r2[0].year;
      assert WithYear(r1, y1) != [];
      WithYearMember(r2, y1);
      assert WithYear(r2, y2) != [];
      WithYearMember(r1, y2);
      assert y1 == y2;
      assert WithYear(r1, y1)[0] == r1[0];
      assert WithYear(r2, y1)[0] == r2[0];
      forall y ensures WithYear(r1[1..], y) == WithYear(r2[1..], y) {
        if y == y1 {
          assert WithYear(r1[1..], y) == WithYear(r1, y)[1..];
          assert WithYear(r2[1..], y) == WithYear(r2, y)[1..];
        } else {
          assert WithYear(r1[1..], y) == WithYear(r1, y);
          assert WithYear(r2[1..], y) == WithYear(r2, y);
        }
      }
      SortedSameYearsEqual(r1[1..], r2[1..]);
      assert r1 == [r1[0]] + r1[1..] && r2 == [r2[0]] + r2[1..];
    }
  }

  /** The sort is the only order that is non-increasing in year and keeps each
      year's publications in input order. */
  lemma SortUnique(s: seq<Publication>, r: seq<Publication>)
    requires SortedByYearDesc(r)
    requires forall y :: WithYear(r, y) == WithYear(s, y)
    ensures r == SortByYearDesc(s)
  {
    forall y ensures WithYear(r, y) == WithYear(SortByYearDesc(s), y) {
      SortStable(s, y);
    }
    SortedSameYearsEqual(r, SortByYearDesc(s));
  }
}
