/**
 * Highlight spans and the run coalescing of `_append_runs`.
 */
module Runs {

  /** The category of a highlight; each stands for one colour constant of the source. */
  datatype Category = WordDel | WordIns | Replace | VowelDel | ConsDel | CharIns

  /** The colour string the source attaches to each category. */
  function Colour(c: Category): string {
    match c
    case WordDel => "#ff6b6b55"
    case WordIns => "#6b9bff55"
    case Replace => "#ffc10766"
    case VowelDel => "#ff3b3066"
    case ConsDel => "#ff9e9e66"
    case CharIns => "#66a3ff66"
  }

  /** Distinct categories carry distinct colours, so a renderer can tell them apart. */
  lemma ColoursDistinct(c: Category, d: Category)
    requires c != d
    ensures Colour(c) != Colour(d)
  {
  }

  /** A highlight over the half-open character range `[start, end)` of one text. */
  datatype Span = Span(start: int, end: int, category: Category)

  /** The (position, category) pairs a span highlights. */
  function SpanCells(sp: Span): set<(int, Category)> {
    set p | sp.start <= p < sp.end :: (p, sp.category)
  }

  /** The (position, category) pairs a list of spans highlights. */
  function Cells(spans: seq<Span>): set<(int, Category)> {
    if spans == [] then {} else Cells(spans[..|spans| - 1]) + SpanCells(spans[|spans| - 1])
  }

  lemma {:induction false} CellsAppend(a: seq<Span>, b: seq<Span>)
    ensures Cells(a + b) == Cells(a) + Cells(b)
    decreases |b|
  {
    if b != [] {
      var b' := b[..|b| - 1];
      assert (a + b)[..|a + b| - 1] == a + b';
      CellsAppend(a, b');
    } else {
      assert a + b == a;
    }
  }

  /** The cells `(base + x, cat)` for every index `x` of `indexes`. */
  function OffsetCells(indexes: seq<int>, base: int, cat: Category): set<(int, Category)> {
    set x | x in indexes :: (base + x, cat)
  }

  /** Ascending order. */
  predicate Sorted(s: seq<int>) {
    forall a, b :: 0 <= a < b < |s| ==> s[a] <= s[b]
  }

  /** No value occurs twice. */
  predicate Distinct(s: seq<int>) {
    forall a, b :: 0 <= a < b < |s| ==> s[a] != s[b]
  }

  function Insert(x: int, s: seq<int>): seq<int> {
    if s == [] || x <= s[0] then [x] + s else [s[0]] + Insert(x, s[1..])
  }

  lemma {:induction false} InsertPermutes(x: int, s: seq<int>)
    ensures multiset(Insert(x, s)) == multiset(s) + multiset{x}
  {
    if s != [] && x > s[0] {
      assert s == [s[0]] + s[1..];
      InsertPermutes(x, s[1..]);
    }
  }

  lemma {:induction false} InsertSorted(x: int, s: seq<int>)
    requires Sorted(s)
    ensures Sorted(Insert(x, s))
  {
    var r := Insert(x, s);
    if s == [] || x <= s[0] {
      forall a, b | 0 <= a < b < |r| ensures r[a] <= r[b] {
        if a > 0 {
          assert r[a] == s[a - 1];
        }
        assert r[b] == s[b - 1];
      }
    } else {
      var t := s[1..];
      InsertSorted(x, t);
      InsertBounded(x, t, s[0]);
      var it := Insert(x, t);
      assert r == [s[0]] + it;
      forall a, b | 0 <= a < b < |r| ensures r[a] <= r[b] {
        assert r[b] == it[b - 1];
        if a > 0 {
          assert r[a] == it[a - 1];
        }
      }
    }
  }

  /** Inserting a value no smaller than `lo` into a list whose values are no smaller
      than `lo` keeps every value no smaller than `lo`. */
  lemma {:induction false} InsertBounded(x: int, s: seq<int>, lo: int)
    requires lo <= x && forall j :: 0 <= j < |s| ==> lo <= s[j]
    ensures forall j :: 0 <= j < |Insert(x, s)| ==> lo <= Insert(x, s)[j]
  {
    var r := Insert(x, s);
    if s == [] || x <= s[0] {
      assert forall j :: 0 < j < |r| ==> r[j] == s[j - 1];
    } else {
      InsertBounded(x, s[1..], lo);
      assert forall j :: 0 < j < |r| ==> r[j] == Insert(x, s[1..])[j - 1];
    }
  }

  /** `list.sort()` on integers: an ascending permutation. */
  function SortAsc(s: seq<int>): seq<int> {
    if s == [] then [] else Insert(s[0], SortAsc(s[1..]))
  }

  lemma {:induction false} SortAscCorrect(s: seq<int>)
    ensures Sorted(SortAsc(s)) && multiset(SortAsc(s)) == multiset(s)
  {
    if s != [] {
      assert s == [s[0]] + s[1..];
      SortAscCorrect(s[1..]);
      InsertSorted(s[0], SortAsc(s[1..]));
      InsertPermutes(s[0], SortAsc(s[1..]));
    }
  }

  /** A sorted permutation of a list without duplicates is strictly increasing. */
  lemma SortedDistinct(s: seq<int>, r: seq<int>, a: nat)
    requires Distinct(s) && Sorted(r) && multiset(r) == multiset(s)
    requires a < |r| - 1
    ensures r[a] < r[a + 1]
  {
    if r[a] == r[a + 1] {
      assert r == r[..a] + [r[a], r[a + 1]] + r[a + 2..];
      assert multiset(r)[r[a]] >= 2;
      NoDuplicateCount(s, r[a]);
    }
  }

  lemma {:induction false} NoDuplicateCount(s: seq<int>, x: int)
    requires Distinct(s)
    ensures multiset(s)[x] <= 1
  {
    if s != [] {
      assert s == [s[0]] + s[1..];
      assert Distinct(s[1..]) by {
        forall a, b | 0 <= a < b < |s[1..]| ensures s[1..][a] != s[1..][b] {
          assert s[1..][a] == s[a + 1] && s[1..][b] == s[b + 1];
        }
      }
      NoDuplicateCount(s[1..], x);
      if s[0] == x {
        assert x !in s[1..] by {
          forall t | 0 <= t < |s[1..]| ensures s[1..][t] != x {
            assert s[1..][t] == s[t + 1];
          }
        }
      }
    }
  }

  /** A run of consecutive values `sorted[r..k]` highlights exactly the cells of those values. */
  lemma RunCells(sorted: seq<int>, r: nat, k: nat, base: int, cat: Category)
    requires r < k <= |sorted|
    requires forall t :: r <= t < k ==> sorted[t] == sorted[r] + (t - r)
    ensures SpanCells(Span(base + sorted[r], base + sorted[k - 1] + 1, cat)) == OffsetCells(sorted[r..k], base, cat)
  {
    var sp := Span(base + sorted[r], base + sorted[k - 1] + 1, cat);
    forall c | c in SpanCells(sp) ensures c in OffsetCells(sorted[r..k], base, cat) {
      var p :| sp.start <= p < sp.end && c == (p, cat);
      var t := p - base - sorted[r] + r;
      assert r <= t < k;
      var x := sorted[t];
      assert sorted[r..k][t - r] == x;
      assert x in sorted[r..k] && c == (base + x, cat);
    }
    forall c | c in OffsetCells(sorted[r..k], base, cat) ensures c in SpanCells(sp) {
      var x :| x in sorted[r..k] && c == (base + x, cat);
      var t :| 0 <= t < k - r && sorted[r..k][t] == x;
      assert sorted[r + t] == x;
    }
  }


  lemma SameElementsSameCells(a: seq<int>, b: seq<int>, base: int, cat: Category)
    requires forall x :: x in a <==> x in b
    ensures OffsetCells(a, base, cat) == OffsetCells(b, base, cat)
  {
    forall c | c in OffsetCells(a, base, cat) ensures c in OffsetCells(b, base, cat) {
      var x :| x in a && c == (base + x, cat);
      assert x in b;
    }
    forall c | c in OffsetCells(b, base, cat) ensures c in OffsetCells(a, base, cat) {
      var x :| x in b && c == (base + x, cat);
      assert x in a;
    }
  }

  /** Neighbours strictly increase. */
  predicate Increasing(s: seq<int>)
    decreases |s|
  {
    |s| < 2 || (s[0] < s[1] && Increasing(s[1..]))
  }

  lemma {:induction false} IncreasingAt(s: seq<int>, a: nat)
    requires Increasing(s) && a < |s| - 1
    ensures s[a] < s[a + 1]
    decreases a
  {
    if a > 0 {
      IncreasingAt(s[1..], a - 1);
    }
  }

  /** Sorting a list without duplicates yields a strictly increasing list. */
  lemma {:induction false} SortedDistinctIncreasing(s: seq<int>, r: seq<int>, from: nat)
    requires Distinct(s) && Sorted(r) && multiset(r) == multiset(s)
    requires from <= |r|
    ensures Increasing(r[from..])
    decreases |r| - from
  {
    if from + 1 < |r| {
      SortedDistinctIncreasing(s, r, from + 1);
      SortedDistinct(s, r, from);
      assert r[from..][1..] == r[from + 1..];
    }
  }

  /** Adjoining two lists of indexes adjoins their cells. */
  lemma OffsetCellsConcat(a: seq<int>, b: seq<int>, base: int, cat: Category)
    ensures OffsetCells(a + b, base, cat) == OffsetCells(a, base, cat) + OffsetCells(b, base, cat)
  {
    forall c | c in OffsetCells(a + b, base, cat)
      ensures c in OffsetCells(a, base, cat) + OffsetCells(b, base, cat)
    {
      var x :| x in a + b && c == (base + x, cat);
      assert x in a || x in b;
    }
    forall c | c in OffsetCells(a, base, cat) + OffsetCells(b, base, cat)
      ensures c in OffsetCells(a + b, base, cat)
    {
      if c in OffsetCells(a, base, cat) {
        var x :| x in a && c == (base + x, cat);
        assert x in a + b;
      } else {
        var x :| x in b && c == (base + x, cat);
        assert x in a + b;
      }
    }
  }

  /**
   * The spans `_append_runs` emits for `s[r..]`, shifted by `base`, when `s[r..k]` is the
   * run collected so far: a run is closed as soon as the next value is not one more than
   * the previous one, and the last run is closed at the end of the list.
   */
  function RunSpans(s: seq<int>, r: nat, k: nat, base: int, cat: Category): seq<Span>
    requires r < k <= |s|
    decreases |s| - k
  {
    if k == |s| then [Span(base + s[r], base + s[k - 1] + 1, cat)]
    else if s[k] == s[k - 1] + 1 then RunSpans(s, r, k + 1, base, cat)
    else [Span(base + s[r], base + s[k - 1] + 1, cat)] + RunSpans(s, k, k + 1, base, cat)
  }

  /** `s[r..k]` holds consecutive values. */
  predicate Consecutive(s: seq<int>, r: nat, k: nat)
    requires r < k <= |s|
  {
    forall t :: r <= t < k ==> s[t] == s[r] + (t - r)
  }

  /** Each span is non-empty, carries `cat`, and begins and ends at an index of `indexes` (offset by `base`). */
  predicate WellFormedRuns(rs: seq<Span>, base: int, indexes: seq<int>, cat: Category) {
    forall q :: 0 <= q < |rs| ==>
      rs[q].start < rs[q].end && rs[q].category == cat
      && rs[q].start - base in indexes && rs[q].end - 1 - base in indexes
  }

  /** Spans in ascending order with at least one position between neighbours. */
  predicate Separated(rs: seq<Span>) {
    forall q :: 0 <= q < |rs| - 1 ==> rs[q].end < rs[q + 1].start
  }

  lemma {:induction false} RunSpansHead(s: seq<int>, r: nat, k: nat, base: int, cat: Category)
    requires r < k <= |s|
    ensures RunSpans(s, r, k, base, cat) != []
    ensures RunSpans(s, r, k, base, cat)[0].start == base + s[r]
    decreases |s| - k
  {
    if k < |s| && s[k] == s[k - 1] + 1 {
      RunSpansHead(s, r, k + 1, base, cat);
    }
  }

  lemma {:induction false} RunSpansWellFormed(s: seq<int>, r: nat, k: nat, base: int, cat: Category)
    requires r < k <= |s| && Consecutive(s, r, k)
    ensures WellFormedRuns(RunSpans(s, r, k, base, cat), base, s, cat)
    decreases |s| - k
  {
    var sp := Span(base + s[r], base + s[k - 1] + 1, cat);
    assert s[r] <= s[k - 1];
    assert s[r] in s && s[k - 1] in s;
    if k == |s| {
      WellFormedCons(sp, [], base, s, cat);
      assert [sp] + [] == [sp];
    } else if s[k] == s[k - 1] + 1 {
      RunSpansWellFormed(s, r, k + 1, base, cat);
    } else {
      RunSpansWellFormed(s, k, k + 1, base, cat);
      WellFormedCons(sp, RunSpans(s, k, k + 1, base, cat), base, s, cat);
    }
  }

  lemma WellFormedCons(sp: Span, rest: seq<Span>, base: int, indexes: seq<int>, cat: Category)
    requires sp.start < sp.end && sp.category == cat
    requires sp.start - base in indexes && sp.end - 1 - base in indexes
    requires WellFormedRuns(rest, base, indexes, cat)
    ensures WellFormedRuns([sp] + rest, base, indexes, cat)
  {
    var rs := [sp] + rest;
    forall q | 0 < q < |rs| ensures rs[q] == rest[q - 1] { }
  }

  lemma {:induction false} RunSpansCells(s: seq<int>, r: nat, k: nat, base: int, cat: Category)
    requires r < k <= |s| && Consecutive(s, r, k)
    ensures Cells(RunSpans(s, r, k, base, cat)) == OffsetCells(s[r..], base, cat)
    decreases |s| - k
  {
    var sp := Span(base + s[r], base + s[k - 1] + 1, cat);
    RunCells(s, r, k, base, cat);
    assert Cells([sp]) == SpanCells(sp) by {
      assert [sp][..0] == [];
    }
    if k == |s| {
      assert s[r..k] == s[r..];
    } else if s[k] == s[k - 1] + 1 {
      RunSpansCells(s, r, k + 1, base, cat);
    } else {
      RunSpansCells(s, k, k + 1, base, cat);
      CellsAppend([sp], RunSpans(s, k, k + 1, base, cat));
      assert s[r..] == s[r..k] + s[k..];
      OffsetCellsConcat(s[r..k], s[k..], base, cat);
    }
  }

  lemma {:induction false} RunSpansSeparated(s: seq<int>, r: nat, k: nat, base: int, cat: Category)
    requires r < k <= |s| && Increasing(s)
    ensures Separated(RunSpans(s, r, k, base, cat))
    decreases |s| - k
  {
    if k < |s| {
      if s[k] == s[k - 1] + 1 {
        RunSpansSeparated(s, r, k + 1, base, cat);
      } else {
        RunSpansSeparated(s, k, k + 1, base, cat);
        RunSpansHead(s, k, k + 1, base, cat);
        IncreasingAt(s, k - 1);
        var rest := RunSpans(s, k, k + 1, base, cat);
        var rs := RunSpans(s, r, k, base, cat);
        assert rs == [Span(base + s[r], base + s[k - 1] + 1, cat)] + rest;
        forall q | 0 <= q < |rs| - 1 ensures rs[q].end < rs[q + 1].start {
          if q > 0 {
            assert rs[q] == rest[q - 1] && rs[q + 1] == rest[q];
          }
        }
      }
    }
  }

  /**
   * The run-detection loop of `_append_runs` over an already sorted, non-empty list.
   */
  method Coalesce(spans: seq<Span>, base: int, sorted: seq<int>, cat: Category) returns (out: seq<Span>)
    requires sorted != []
    ensures out == spans + RunSpans(sorted, 0, 1, base, cat)
  {
    out := spans;
    var runStart := sorted[0];
    var prev := sorted[0];
    ghost var r := 0;
    var k := 1;
    while k < |sorted|
      invariant 0 <= r < k <= |sorted|
      invariant runStart == sorted[r] && prev == sorted[k - 1]
      invariant out + RunSpans(sorted, r, k, base, cat) == spans + RunSpans(sorted, 0, 1, base, cat)
    {
      var x := sorted[k];
      if x == prev + 1 {
        prev := x;
      } else {
        var sp := Span(base + runStart, base + prev + 1, cat);
        assert out + RunSpans(sorted, r, k, base, cat) == (out + [sp]) + RunSpans(sorted, k, k + 1, base, cat);
        out := out + [sp];
        runStart := x;
        prev := x;
        r := k;
      }
      k := k + 1;
    }
    out := out + [Span(base + runStart, base + prev + 1, cat)];
  }

  /** Sorting keeps exactly the elements of the list. */
  lemma SortAscElements(s: seq<int>)
    ensures forall x :: x in SortAsc(s) <==> x in s
  {
    SortAscCorrect(s);
    forall x ensures x in SortAsc(s) <==> x in s {
      assert x in SortAsc(s) <==> multiset(SortAsc(s))[x] > 0;
      assert x in s <==> multiset(s)[x] > 0;
    }
  }

  /** Sorting a list without duplicates gives a strictly increasing list. */
  lemma SortAscIncreasing(s: seq<int>)
    requires Distinct(s)
    ensures Increasing(SortAsc(s))
  {
    SortAscCorrect(s);
    SortedDistinctIncreasing(s, SortAsc(s), 0);
    assert SortAsc(s)[0..] == SortAsc(s);
  }

  lemma WellFormedSameElements(rs: seq<Span>, base: int, a: seq<int>, b: seq<int>, cat: Category)
    requires forall x :: x in a <==> x in b
    requires WellFormedRuns(rs, base, a, cat)
    ensures WellFormedRuns(rs, base, b, cat)
  {
  }

  /** The spans `_append_runs` leaves in the list: the old ones, then one per run of the
      sorted indexes. */
  function Appended(spans: seq<Span>, base: int, indexes: seq<int>, cat: Category): seq<Span> {
    if indexes == [] then spans else spans + RunSpans(SortAsc(indexes), 0, 1, base, cat)
  }

  /**
   * What appending the runs of `indexes` achieves: the spans already present are kept;
   * the new spans highlight exactly the given indexes, each begins and ends at one of
   * them, and when the indexes are distinct the runs are maximal: neighbouring runs
   * leave a gap.
   */
  lemma AppendedRuns(spans: seq<Span>, base: int, indexes: seq<int>, cat: Category)
    ensures var out := Appended(spans, base, indexes, cat);
      && |out| >= |spans| && out[..|spans|] == spans
      && WellFormedRuns(out[|spans|..], base, indexes, cat)
      && Cells(out) == Cells(spans) + OffsetCells(indexes, base, cat)
      && (Distinct(indexes) ==> Separated(out[|spans|..]))
  {
    var out := Appended(spans, base, indexes, cat);
    if indexes == [] {
      assert OffsetCells(indexes, base, cat) == {};
      assert spans[|spans|..] == [];
    } else {
      var sorted := SortAsc(indexes);
      var added := RunSpans(sorted, 0, 1, base, cat);
      assert out[|spans|..] == added;
      SortAscElements(indexes);
      RunSpansWellFormed(sorted, 0, 1, base, cat);
      WellFormedSameElements(added, base, sorted, indexes, cat);
      RunSpansCells(sorted, 0, 1, base, cat);
      assert sorted[0..] == sorted;
      SameElementsSameCells(sorted, indexes, base, cat);
      CellsAppend(spans, added);
      if Distinct(indexes) {
        SortAscIncreasing(indexes);
        RunSpansSeparated(sorted, 0, 1, base, cat);
      }
    }
  }

  /** The cells part of `AppendedRuns` on its own. */
  lemma AppendedCells(spans: seq<Span>, base: int, indexes: seq<int>, cat: Category)
    ensures Cells(Appended(spans, base, indexes, cat)) == Cells(spans) + OffsetCells(indexes, base, cat)
  {
    AppendedRuns(spans, base, indexes, cat);
  }

  /** `_append_runs`: sort the indexes and append one span (shifted by `base`) per maximal
      run of consecutive indexes. */
  method AppendRuns(spans: seq<Span>, base: int, indexes: seq<int>, cat: Category) returns (out: seq<Span>)
    ensures out == Appended(spans, base, indexes, cat)
    ensures |out| >= |spans| && out[..|spans|] == spans
    ensures WellFormedRuns(out[|spans|..], base, indexes, cat)
    ensures Cells(out) == Cells(spans) + OffsetCells(indexes, base, cat)
    ensures Distinct(indexes) ==> Separated(out[|spans|..])
  {
    AppendedRuns(spans, base, indexes, cat);
    if indexes == [] {
      return spans;
    }
    var sorted := SortAsc(indexes);
    out := Coalesce(spans, base, sorted, cat);
  }
}
