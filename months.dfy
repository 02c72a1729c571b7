/**
 * Lists of monthly snapshots: the stable sort by month key that
 * `Array.prototype.sort((a, b) => a.month.localeCompare(b.month))` performs,
 * filtering by month, and the deposit total that the merge averages.
 */
module Months {
  import opened Text
  import opened Dedup
  import opened Analysis

  /** Non-decreasing by month key. */
  predicate SortedByMonth(s: seq<MonthlySnapshot>)
  {
    forall i, j :: 0 <= i < j < |s| ==> !Less(s[j].month, s[i].month)
  }

  /** `s` with `x` placed before the first element whose month is not smaller than `x`'s. */
  function Insert(x: MonthlySnapshot, s: seq<MonthlySnapshot>): seq<MonthlySnapshot>
  {
    if s == [] then [x]
    else if Less(s[0].month, x.month) then [s[0]] + Insert(x, s[1..])
    else [x] + s
  }

  /** The stable sort by month key (insertion sort; every stable sort has this result). */
  function SortByMonth(s: seq<MonthlySnapshot>): seq<MonthlySnapshot>
  {
    if s == [] then [] else Insert(s[0], SortByMonth(s[1..]))
  }

  /** `s.filter(m => keep(m.month))`. */
  function FilterByMonth(s: seq<MonthlySnapshot>, keep: string -> bool): (r: seq<MonthlySnapshot>)
    ensures |r| <= |s|
    ensures forall i :: 0 <= i < |r| ==> r[i] in s && keep(r[i].month)
  {
    if s == [] then []
    else if keep(s[0].month) then [s[0]] + FilterByMonth(s[1..], keep)
    else FilterByMonth(s[1..], keep)
  }

  /** The month filter `m => !known.has(m.month)`: months not in `known`. */
  function Unknown(known: set<string>): string -> bool
  {
    k => k !in known
  }

  /** Filtering works element by element, so it distributes over concatenation. */
  lemma {:induction false} FilterAppend(a: seq<MonthlySnapshot>, b: seq<MonthlySnapshot>, keep: string -> bool)
    ensures FilterByMonth(a + b, keep) == FilterByMonth(a, keep) + FilterByMonth(b, keep)
  {
    if a == [] {
      assert a + b == b;
    } else {
      assert (a + b)[1..] == a[1..] + b;
      FilterAppend(a[1..], b, keep);
    }
  }

  /** A filter every element passes changes nothing. */
  lemma {:induction false} FilterAllKept(s: seq<MonthlySnapshot>, keep: string -> bool)
    requires forall i :: 0 <= i < |s| ==> keep(s[i].month)
    ensures FilterByMonth(s, keep) == s
  {
    if s != [] {
      forall i | 0 <= i < |s[1..]| ensures keep(s[1..][i].month) {
        assert s[1..][i] == s[i + 1];
      }
      FilterAllKept(s[1..], keep);
    }
  }

  /** `s.reduce((sum, m) => sum + m.totalDeposits, 0)`. */
  function TotalDeposits(s: seq<MonthlySnapshot>): real
  {
    if s == [] then 0.0 else s[0].totalDeposits + TotalDeposits(s[1..])
  }

  // ---------------------------------------------------------------------------
  // The order on months

  /** `!(b < a)` and `!(c < b)` give `!(c < a)`. */
  lemma NotLessTransitive(a: string, b: string, c: string)
    requires !Less(b, a) && !Less(c, b)
    ensures !Less(c, a)
  {
    LessTotal(a, b);
    LessTotal(b, c);
    if a != b && b != c { LessTransitive(a, b, c); LessAsymmetric(a, c); }
    else if a == b && b != c { LessAsymmetric(a, c); }
    else if a != b && b == c { LessAsymmetric(a, c); }
    else { LessIrreflexive(a); }
  }

  // ---------------------------------------------------------------------------
  // Insertion

  /** Insertion adds exactly `x`: one more element, one more deposit figure. */
  lemma {:induction false} InsertContents(x: MonthlySnapshot, s: seq<MonthlySnapshot>)
    ensures multiset(Insert(x, s)) == multiset(s) + multiset{x}
    ensures |Insert(x, s)| == |s| + 1
    ensures TotalDeposits(Insert(x, s)) == x.totalDeposits + TotalDeposits(s)
  {
    if s != [] && Less(s[0].month, x.month) {
      var r := Insert(x, s[1..]);
      InsertContents(x, s[1..]);
      assert s == [s[0]] + s[1..];
      assert ([s[0]] + r)[1..] == r;
    } else {
      assert ([x] + s)[1..] == s;
    }
  }

  /** No month of `s` sorts before `m`. */
  predicate AtLeast(m: string, s: seq<MonthlySnapshot>)
  {
    forall j :: 0 <= j < |s| ==> !Less(s[j].month, m)
  }

  lemma SortedTail(s: seq<MonthlySnapshot>)
    requires s != [] && SortedByMonth(s)
    ensures SortedByMonth(s[1..]) && AtLeast(s[0].month, s[1..])
  {
    forall i, j | 0 <= i < j < |s[1..]| ensures !Less(s[1..][j].month, s[1..][i].month) {
      assert s[1..][i] == s[i + 1] && s[1..][j] == s[j + 1];
    }
    forall j | 0 <= j < |s[1..]| ensures !Less(s[1..][j].month, s[0].month) {
      assert s[1..][j] == s[j + 1];
    }
  }

  lemma SortedCons(y: MonthlySnapshot, t: seq<MonthlySnapshot>)
    requires SortedByMonth(t) && AtLeast(y.month, t)
    ensures SortedByMonth([y] + t)
  {
    var r := [y] + t;
    forall i, j | 0 <= i < j < |r| ensures !Less(r[j].month, r[i].month) {
      assert r[j] == t[j - 1];
      if i > 0 { assert r[i] == t[i - 1]; }
    }
  }

  /** A lower bound of `x` and of every element of `s` bounds the insertion too. */
  lemma {:induction false} InsertAtLeast(m: string, x: MonthlySnapshot, s: seq<MonthlySnapshot>)
    requires AtLeast(m, s) && !Less(x.month, m)
    ensures AtLeast(m, Insert(x, s))
  {
    if s != [] && Less(s[0].month, x.month) {
      assert AtLeast(m, s[1..]) by {
        forall j | 0 <= j < |s[1..]| ensures !Less(s[1..][j].month, m) {
          assert s[1..][j] == s[j + 1];
        }
      }
      InsertAtLeast(m, x, s[1..]);
      var r := Insert(x, s);
      forall j | 0 <= j < |r| ensures !Less(r[j].month, m) {
        if j > 0 { assert r[j] == Insert(x, s[1..])[j - 1]; }
      }
    }
  }

  /** Insertion into a sorted list gives a sorted list. */
  lemma {:induction false} InsertSorted(x: MonthlySnapshot, s: seq<MonthlySnapshot>)
    requires SortedByMonth(s)
    ensures SortedByMonth(Insert(x, s))
  {
    if s != [] {
      SortedTail(s);
      if Less(s[0].month, x.month) {
        InsertSorted(x, s[1..]);
        LessAsymmetric(s[0].month, x.month);
        InsertAtLeast(s[0].month, x, s[1..]);
        SortedCons(s[0], Insert(x, s[1..]));
      } else {
        forall j | 0 <= j < |s| ensures !Less(s[j].month, x.month) {
          if j > 0 { assert s[1..][j - 1] == s[j]; NotLessTransitive(x.month, s[0].month, s[j].month); }
        }
        SortedCons(x, s);
      }
    }
  }

  /** Inserting into a list that no earlier-sorting element precedes puts `x` in front. */
  lemma InsertInFront(x: MonthlySnapshot, s: seq<MonthlySnapshot>)
    requires s != [] ==> !Less(s[0].month, x.month)
    ensures Insert(x, s) == [x] + s
  {
  }

  // ---------------------------------------------------------------------------
  // Sorting

  /** The sort yields a sorted permutation of its input with the same deposit total. */
  lemma {:induction false} SortByMonthFacts(s: seq<MonthlySnapshot>)
    ensures SortedByMonth(SortByMonth(s))
    ensures multiset(SortByMonth(s)) == multiset(s)
    ensures |SortByMonth(s)| == |s|
    ensures TotalDeposits(SortByMonth(s)) == TotalDeposits(s)
  {
    if s != [] {
      SortByMonthFacts(s[1..]);
      InsertContents(s[0], SortByMonth(s[1..]));
      InsertSorted(s[0], SortByMonth(s[1..]));
      assert s == [s[0]] + s[1..];
    }
  }

  /** A list that is already sorted is left unchanged. */
  lemma {:induction false} SortByMonthOfSorted(s: seq<MonthlySnapshot>)
    requires SortedByMonth(s)
    ensures SortByMonth(s) == s
  {
    if s != [] {
      assert SortedByMonth(s[1..]) by {
        forall i, j | 0 <= i < j < |s[1..]| ensures !Less(s[1..][j].month, s[1..][i].month) {
          assert s[1..][i] == s[i + 1] && s[1..][j] == s[j + 1];
        }
      }
      SortByMonthOfSorted(s[1..]);
      if |s| > 1 { assert s[1..][0] == s[1]; }
      InsertInFront(s[0], s[1..]);
      assert s == [s[0]] + s[1..];
    }
  }

  lemma {:induction false} FilterInsert(x: MonthlySnapshot, s: seq<MonthlySnapshot>, keep: string -> bool)
    requires SortedByMonth(s)
    ensures FilterByMonth(Insert(x, s), keep) ==
      if keep(x.month) then Insert(x, FilterByMonth(s, keep)) else FilterByMonth(s, keep)
  {
    if s != [] {
      var t := s[1..];
      assert SortedByMonth(t) by {
        forall i, j | 0 <= i < j < |t| ensures !Less(t[j].month, t[i].month) {
          assert t[i] == s[i + 1] && t[j] == s[j + 1];
        }
      }
      if Less(s[0].month, x.month) {
        FilterInsert(x, t, keep);
        assert ([s[0]] + Insert(x, t))[1..] == Insert(x, t);
      } else {
        assert ([x] + s)[1..] == s;
        var f := FilterByMonth(s, keep);
        if keep(x.month) && f != [] {
          var k :| 0 <= k < |s| && s[k] == f[0];
          if k > 0 { NotLessTransitive(x.month, s[0].month, s[k].month); }
          InsertInFront(x, f);
        }
      }
    }
  }

  /** Filtering by month commutes with the sort: the sort is stable. */
  lemma {:induction false} FilterSortByMonth(s: seq<MonthlySnapshot>, keep: string -> bool)
    ensures FilterByMonth(SortByMonth(s), keep) == SortByMonth(FilterByMonth(s, keep))
  {
    if s != [] {
      FilterSortByMonth(s[1..], keep);
      SortByMonthFacts(s[1..]);
      FilterInsert(s[0], SortByMonth(s[1..]), keep);
    }
  }

  /**
   * Stability stated directly: the snapshots of any one month appear in the
   * sorted list in the order in which they appear in the input.
   */
  lemma SortByMonthIsStable(s: seq<MonthlySnapshot>, month: string)
    ensures FilterByMonth(SortByMonth(s), k => k == month) == FilterByMonth(s, k => k == month)
  {
    var keep := (k: string) => k == month;
    FilterSortByMonth(s, keep);
    SameMonthSorted(FilterByMonth(s, keep), month);
    SortByMonthOfSorted(FilterByMonth(s, keep));
  }

  lemma SameMonthSorted(s: seq<MonthlySnapshot>, month: string)
    requires forall i :: 0 <= i < |s| ==> s[i].month == month
    ensures SortedByMonth(s)
  {
    LessIrreflexive(month);
  }

  // ---------------------------------------------------------------------------
  // Month keys

  lemma KeySetCons(x: MonthlySnapshot, s: seq<MonthlySnapshot>)
    ensures KeySet([x] + s, MonthOf) == {x.month} + KeySet(s, MonthOf)
  {
    var r := [x] + s;
    forall k | k in KeySet(r, MonthOf) ensures k in {x.month} + KeySet(s, MonthOf) {
      var i :| 0 <= i < |r| && MonthOf(r[i]) == k;
      if i > 0 { assert r[i] == s[i - 1]; }
    }
    forall k | k in {x.month} + KeySet(s, MonthOf) ensures k in KeySet(r, MonthOf) {
      if k == x.month { assert MonthOf(r[0]) == k; }
      else { var i :| 0 <= i < |s| && MonthOf(s[i]) == k; assert r[i + 1] == s[i]; }
    }
  }

  lemma UniqueCons(x: MonthlySnapshot, s: seq<MonthlySnapshot>)
    ensures UniqueKeys([x] + s, MonthOf) <==> x.month !in KeySet(s, MonthOf) && UniqueKeys(s, MonthOf)
  {
    var r := [x] + s;
    if UniqueKeys(r, MonthOf) {
      forall i, j | 0 <= i < j < |s| ensures MonthOf(s[i]) != MonthOf(s[j]) {
        assert r[i + 1] == s[i] && r[j + 1] == s[j];
      }
      forall i | 0 <= i < |s| ensures MonthOf(s[i]) != x.month {
        assert r[i + 1] == s[i] && r[0] == x;
      }
    }
    if x.month !in KeySet(s, MonthOf) && UniqueKeys(s, MonthOf) {
      forall i, j | 0 <= i < j < |r| ensures MonthOf(r[i]) != MonthOf(r[j]) {
        assert r[j] == s[j - 1];
        assert MonthOf(s[j - 1]) in KeySet(s, MonthOf);
        if i > 0 { assert r[i] == s[i - 1]; } else { assert r[i] == x; }
      }
    }
  }

  lemma {:induction false} InsertKeys(x: MonthlySnapshot, s: seq<MonthlySnapshot>)
    ensures KeySet(Insert(x, s), MonthOf) == {x.month} + KeySet(s, MonthOf)
    ensures UniqueKeys(s, MonthOf) && x.month !in KeySet(s, MonthOf) ==> UniqueKeys(Insert(x, s), MonthOf)
  {
    if s == [] {
      assert KeySet(s, MonthOf) == {};
      KeySetCons(x, s);
      UniqueCons(x, s);
    } else if Less(s[0].month, x.month) {
      InsertKeys(x, s[1..]);
      KeySetCons(s[0], Insert(x, s[1..]));
      KeySetCons(s[0], s[1..]);
      UniqueCons(s[0], Insert(x, s[1..]));
      UniqueCons(s[0], s[1..]);
      assert [s[0]] + s[1..] == s;
      LessIrreflexive(x.month);
    } else {
      KeySetCons(x, s);
      UniqueCons(x, s);
    }
  }

  /** Sorting keeps the set of months and keeps months unique. */
  lemma {:induction false} SortByMonthKeys(s: seq<MonthlySnapshot>)
    ensures KeySet(SortByMonth(s), MonthOf) == KeySet(s, MonthOf)
    ensures UniqueKeys(s, MonthOf) ==> UniqueKeys(SortByMonth(s), MonthOf)
  {
    if s == [] {
      assert KeySet(s, MonthOf) == {};
    } else {
      SortByMonthKeys(s[1..]);
      InsertKeys(s[0], SortByMonth(s[1..]));
      KeySetCons(s[0], s[1..]);
      UniqueCons(s[0], s[1..]);
      assert [s[0]] + s[1..] == s;
    }
  }

  /** Filtering keeps uniqueness and keeps exactly the months that pass. */
  lemma {:induction false} FilterKeys(s: seq<MonthlySnapshot>, keep: string -> bool)
    ensures KeySet(FilterByMonth(s, keep), MonthOf) == set k | k in KeySet(s, MonthOf) && keep(k)
    ensures UniqueKeys(s, MonthOf) ==> UniqueKeys(FilterByMonth(s, keep), MonthOf)
  {
    if s == [] {
      assert KeySet(s, MonthOf) == {};
    } else {
      FilterKeys(s[1..], keep);
      KeySetCons(s[0], s[1..]);
      UniqueCons(s[0], s[1..]);
      assert [s[0]] + s[1..] == s;
      var f := FilterByMonth(s[1..], keep);
      if keep(s[0].month) {
        KeySetCons(s[0], f);
        UniqueCons(s[0], f);
      }
    }
  }

  lemma UniqueAppend(a: seq<MonthlySnapshot>, b: seq<MonthlySnapshot>)
    requires UniqueKeys(a, MonthOf) && UniqueKeys(b, MonthOf)
    requires KeySet(a, MonthOf) !! KeySet(b, MonthOf)
    ensures UniqueKeys(a + b, MonthOf)
  {
    var r := a + b;
    forall i, j | 0 <= i < j < |r| ensures MonthOf(r[i]) != MonthOf(r[j]) {
      if j < |a| { assert r[i] == a[i] && r[j] == a[j]; }
      else if i >= |a| { assert r[i] == b[i - |a|] && r[j] == b[j - |a|]; }
      else {
        assert r[i] == a[i] && r[j] == b[j - |a|];
        assert MonthOf(a[i]) in KeySet(a, MonthOf) && MonthOf(b[j - |a|]) in KeySet(b, MonthOf);
      }
    }
  }

  lemma {:induction false} TotalDepositsAppend(a: seq<MonthlySnapshot>, b: seq<MonthlySnapshot>)
    ensures TotalDeposits(a + b) == TotalDeposits(a) + TotalDeposits(b)
  {
    if a == [] {
      assert a + b == b;
    } else {
      TotalDepositsAppend(a[1..], b);
      assert (a + b)[0] == a[0] && (a + b)[1..] == a[1..] + b;
    }
  }
}
