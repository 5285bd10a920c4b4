/** `PageRange` and `PageRanges` of `shrubbery.utils.pagination`: the runs
    of page numbers a pager shows around the current page `p` of `n` pages,
    with the first and last pages always shown and an ellipsis standing for
    each hidden run. */
module Pagination {

  /** `PageRange(start, stop, ellipsis, current)`: the pages
      `xrange(start, stop)`. */
  datatype PageRange = PageRange(start: int, stop: int, ellipsis: bool, current: bool)

  /** `len(range)`: the number of pages in the range. */
  function Length(r: PageRange): (k: nat)
    ensures k == |Interval(r.start, r.stop)|
    decreases r.stop - r.start
  {
    if r.start >= r.stop then 0 else 1 + Length(PageRange(r.start + 1, r.stop, r.ellipsis, r.current))
  }

  /** The keyword arguments `first`, `last`, `before`, `after` and
      `min_gap`. */
  datatype Settings = Settings(first: int, last: int, before: int, after: int, minGap: int)

  const Defaults := Settings(3, 3, 5, 5, 1)

  predicate NonNegative(s: Settings)
  {
    s.first >= 0 && s.last >= 0 && s.before >= 0 && s.after >= 0 && s.minGap >= 0
  }

  function Max(a: int, b: int): int
  {
    if a >= b then a else b
  }

  /** A plain run of pages. */
  function Run(start: int, stop: int): PageRange
  {
    PageRange(start, stop, false, false)
  }

  function Gap(start: int, stop: int): PageRange
  {
    PageRange(start, stop, true, false)
  }

  /** How many pages the window before `p` shows: `before`, widened near
      the end so that `last` pages cannot be swallowed without showing as
      many before `p`. */
  function BeforeWindow(p: int, n: int, s: Settings): int
  {
    Max(s.before, s.last - n + p - 1)
  }

  /** How many pages the window after `p` shows: `after`, widened near the
      start. */
  function AfterWindow(p: int, s: Settings): int
  {
    Max(s.after, s.first - p)
  }

  /** The ranges yielded before the current page. */
  function Leading(p: int, n: int, s: Settings): seq<PageRange>
  {
    if p == 1 then []
    else
      var before := BeforeWindow(p, n, s);
      if p <= s.first + before + s.minGap then [Run(1, p)]
      else [Run(1, s.first + 1), Gap(s.first + 1, p - before), Run(p - before, p)]
  }

  /** The ranges yielded after the current page. */
  function Trailing(p: int, n: int, s: Settings): seq<PageRange>
  {
    if p == n then []
    else
      var after := AfterWindow(p, s);
      if p > n - s.last - after - s.minGap then [Run(p + 1, n + 1)]
      else [Run(p + 1, p + 1 + after), Gap(p + 1 + after, n - s.last + 1), Run(n - s.last + 1, n + 1)]
  }

  /** `list(PageRanges(page, ...))` for page `p` of `n`. */
  function Ranges(p: int, n: int, s: Settings): (r: seq<PageRange>)
    ensures 1 <= |r| <= 7
    ensures PageRange(p, p + 1, false, true) in r
  {
    Leading(p, n, s) + [PageRange(p, p + 1, false, true)] + Trailing(p, n, s)
  }

  // ---------------------------------------------------------------------
  // Properties
  // ---------------------------------------------------------------------

  /** Exactly one range is current, and it is the page itself. */
  lemma OneCurrent(p: int, n: int, s: Settings)
    ensures var rs := Ranges(p, n, s);
            exists k :: 0 <= k < |rs| && rs[k] == PageRange(p, p + 1, false, true)
                        && forall i :: 0 <= i < |rs| && rs[i].current ==> i == k
  {
    var l, t := Leading(p, n, s), Trailing(p, n, s);
    var rs := Ranges(p, n, s);
    var k := |l|;
    assert rs[k] == PageRange(p, p + 1, false, true);
    forall i | 0 <= i < |rs| ensures rs[i].current == (i == k) {
      if i < k {
        assert rs[i] == l[i];
      } else if i > k {
        assert rs[i] == t[i - k - 1];
      }
    }
  }

  /** Each range starts where the previous one stopped. */
  predicate Contiguous(rs: seq<PageRange>)
  {
    forall i :: 0 < i < |rs| ==> rs[i - 1].stop == rs[i].start
  }

  /** No range runs backwards. */
  predicate Ascending(rs: seq<PageRange>)
  {
    forall i :: 0 <= i < |rs| ==> rs[i].start <= rs[i].stop
  }

  /** The ranges cover the pages `xrange(lo, hi)` one after another. */
  predicate Tiles(rs: seq<PageRange>, lo: int, hi: int)
  {
    if |rs| == 0 then lo == hi
    else rs[0].start == lo && rs[|rs| - 1].stop == hi && Contiguous(rs) && Ascending(rs)
  }

  lemma TilesConcat(a: seq<PageRange>, b: seq<PageRange>, lo: int, mid: int, hi: int)
    requires Tiles(a, lo, mid) && Tiles(b, mid, hi)
    ensures Tiles(a + b, lo, hi)
  {
    var ab := a + b;
    if |a| > 0 && |b| > 0 {
      forall i | 0 < i < |ab| ensures ab[i - 1].stop == ab[i].start {
        if i < |a| {
          assert ab[i - 1] == a[i - 1] && ab[i] == a[i];
        } else if i == |a| {
          assert ab[i - 1] == a[|a| - 1] && ab[i] == b[0];
        } else {
          assert ab[i - 1] == b[i - |a| - 1] && ab[i] == b[i - |a|];
        }
      }
      forall i | 0 <= i < |ab| ensures ab[i].start <= ab[i].stop {
        if i < |a| {
          assert ab[i] == a[i];
        } else {
          assert ab[i] == b[i - |a|];
        }
      }
    } else if |a| == 0 {
      assert ab == b;
    } else {
      assert ab == a;
    }
  }

  lemma LeadingTiles(p: int, n: int, s: Settings)
    requires 1 <= p && NonNegative(s)
    ensures Tiles(Leading(p, n, s), 1, p)
  {
  }

  lemma TrailingTiles(p: int, n: int, s: Settings)
    requires p <= n && NonNegative(s)
    ensures Tiles(Trailing(p, n, s), p + 1, n + 1)
  {
  }

  /** For a page between 1 and `n` and non-negative settings the ranges tile
      the pages: they start at 1, stop at `n + 1`, none runs backwards and
      each starts where the previous one stopped. */
  lemma RangesTile(p: int, n: int, s: Settings)
    requires 1 <= p <= n && NonNegative(s)
    ensures |Ranges(p, n, s)| > 0 && Tiles(Ranges(p, n, s), 1, n + 1)
  {
    var current := [PageRange(p, p + 1, false, true)];
    LeadingTiles(p, n, s);
    TrailingTiles(p, n, s);
    TilesConcat(Leading(p, n, s), current, 1, p, p + 1);
    TilesConcat(Leading(p, n, s) + current, Trailing(p, n, s), 1, p + 1, n + 1);
  }

  /** The pages `xrange(start, stop)`. */
  function Interval(start: int, stop: int): seq<int>
    decreases stop - start
  {
    if start >= stop then [] else [start] + Interval(start + 1, stop)
  }

  /** Every page the ranges show, in order. */
  function Pages(rs: seq<PageRange>): seq<int>
  {
    if |rs| == 0 then [] else Interval(rs[0].start, rs[0].stop) + Pages(rs[1..])
  }

  lemma {:induction false} IntervalSplit(a: int, b: int, c: int)
    requires a <= b <= c
    ensures Interval(a, b) + Interval(b, c) == Interval(a, c)
    decreases b - a
  {
    if a < b {
      IntervalSplit(a + 1, b, c);
    }
  }

  /** Ranges that tile `xrange(lo, hi)` show exactly those pages. */
  lemma {:induction false} PagesOfTiling(rs: seq<PageRange>, lo: int, hi: int)
    requires Tiles(rs, lo, hi)
    ensures lo <= hi && Pages(rs) == Interval(lo, hi)
    decreases |rs|
  {
    if |rs| > 0 {
      var tail := rs[1..];
      if |tail| > 0 {
        assert Tiles(tail, rs[0].stop, hi) by {
          assert tail[0] == rs[1] && tail[|tail| - 1] == rs[|rs| - 1];
          forall i | 0 < i < |tail| ensures tail[i - 1].stop == tail[i].start {
            assert tail[i - 1] == rs[i] && tail[i] == rs[i + 1];
          }
          forall i | 0 <= i < |tail| ensures tail[i].start <= tail[i].stop {
            assert tail[i] == rs[i + 1];
          }
        }
      }
      PagesOfTiling(tail, rs[0].stop, hi);
      IntervalSplit(lo, rs[0].stop, hi);
    }
  }

  /** Every page from 1 to `n` is shown once, in order (an ellipsis
      standing for the pages it hides). */
  lemma RangesCoverPages(p: int, n: int, s: Settings)
    requires 1 <= p <= n && NonNegative(s)
    ensures Pages(Ranges(p, n, s)) == Interval(1, n + 1)
  {
    RangesTile(p, n, s);
    PagesOfTiling(Ranges(p, n, s), 1, n + 1);
  }

  /** With non-negative settings every ellipsis hides at least `min_gap`
      pages, and there is at most one on each side of the current page. */
  lemma Ellipses(p: int, n: int, s: Settings)
    requires NonNegative(s)
    ensures var rs := Ranges(p, n, s);
            && (forall i :: 0 <= i < |rs| && rs[i].ellipsis ==> rs[i].stop - rs[i].start >= s.minGap)
            && (forall i, j :: 0 <= i < j < |rs| && rs[i].ellipsis && rs[j].ellipsis ==>
                  rs[i].stop <= p && p + 1 <= rs[j].start)
  {
    var l, t := Leading(p, n, s), Trailing(p, n, s);
    var rs := Ranges(p, n, s);
    var k := |l|;
    forall i | 0 <= i < |rs|
      ensures rs[i].ellipsis ==> rs[i].stop - rs[i].start >= s.minGap
      ensures rs[i].ellipsis ==> (i == 1 && i < k && rs[i].stop <= p) || (i == k + 2 && p + 1 <= rs[i].start)
    {
      if i < k {
        assert rs[i] == l[i];
      } else if i > k {
        assert rs[i] == t[i - k - 1];
      }
    }
  }

  /** Page 1 has nothing before it and page `n` nothing after it. */
  lemma EndPages(n: int, s: Settings)
    ensures Ranges(1, n, s)[0] == PageRange(1, 2, false, true)
    ensures var rs := Ranges(n, n, s); rs[|rs| - 1] == PageRange(n, n + 1, false, true)
  {
  }

  /** When an ellipsis hides pages before the current one, the first
      `first` pages and the `before` window (widened to
      `last - n + p - 1`) are shown; after it, the `after` window (widened
      to `first - p`) and the last `last` pages. */
  lemma Windows(p: int, n: int, s: Settings)
    ensures var l := Leading(p, n, s);
            |l| == 3 ==> l[0] == Run(1, s.first + 1) && l[2].stop - l[2].start == Max(s.before, s.last - n + p - 1)
    ensures var t := Trailing(p, n, s);
            |t| == 3 ==> t[0].stop - t[0].start == Max(s.after, s.first - p) && t[2] == Run(n - s.last + 1, n + 1)
  {
  }

  // ---------------------------------------------------------------------
  // The doctests, range by range
  // ---------------------------------------------------------------------

  function With(before: int, after: int, minGap: int): Settings
  {
    Settings(3, 3, before, after, minGap)
  }

  lemma DoctestPageOne()
    ensures Ranges(1, 30, With(2, 3, 1))
            == [PageRange(1, 2, false, true), Run(2, 5), Gap(5, 28), Run(28, 31)]
  {
  }

  lemma DoctestPageTwentyOne()
    ensures Ranges(21, 30, With(2, 3, 1))
            == [Run(1, 4), Gap(4, 19), Run(19, 21), PageRange(21, 22, false, true), Run(22, 25), Gap(25, 28), Run(28, 31)]
    ensures Ranges(21, 30, With(2, 3, 3)) == Ranges(21, 30, With(2, 3, 1))
    ensures Ranges(21, 30, With(2, 3, 4))
            == [Run(1, 4), Gap(4, 19), Run(19, 21), PageRange(21, 22, false, true), Run(22, 31)]
  {
  }

  lemma DoctestLastPage()
    ensures Ranges(30, 30, Settings(3, 2, 2, 3, 1))
            == [Run(1, 4), Gap(4, 28), Run(28, 30), PageRange(30, 31, false, true)]
  {
  }

  lemma DoctestPageEight()
    ensures Ranges(8, 30, With(2, 3, 1))
            == [Run(1, 4), Gap(4, 6), Run(6, 8), PageRange(8, 9, false, true), Run(9, 12), Gap(12, 28), Run(28, 31)]
    ensures Ranges(8, 30, With(2, 3, 2)) == Ranges(8, 30, With(2, 3, 1))
    ensures Ranges(8, 30, With(2, 3, 3))
            == [Run(1, 8), PageRange(8, 9, false, true), Run(9, 12), Gap(12, 28), Run(28, 31)]
  {
  }

  lemma DoctestWideFirstAndLast()
    ensures Ranges(2, 30, Settings(10, 3, 2, 2, 3))
            == [Run(1, 2), PageRange(2, 3, false, true), Run(3, 11), Gap(11, 28), Run(28, 31)]
    ensures Ranges(28, 30, Settings(10, 10, 2, 2, 3))
            == [Run(1, 11), Gap(11, 21), Run(21, 28), PageRange(28, 29, false, true), Run(29, 31)]
  {
  }

  lemma DoctestWideWindows()
    ensures Ranges(15, 30, Settings(3, 3, 20, 20, 1))
            == [Run(1, 15), PageRange(15, 16, false, true), Run(16, 31)]
    ensures Ranges(15, 30, Settings(20, 20, 5, 5, 1))
            == [Run(1, 15), PageRange(15, 16, false, true), Run(16, 31)]
  {
  }
}
