/** `ReverseListManager` of `shrubbery.db.fields.reverse.reverse_list`: a
    list stored as rows `(index, value)` of one owner, the indices being
    exactly `0 .. len - 1`. The rows are a map from index to value. */
module ReverseList {
  import opened Wrappers
  import DbUtils

  datatype Error = IndexError | ValueError

  // ---------------------------------------------------------------------
  // Rows and the list they hold
  // ---------------------------------------------------------------------

  /** The indices of the rows are exactly `0 .. n - 1`. */
  ghost predicate Indexed<V>(rows: map<nat, V>, n: nat)
  {
    forall k: nat :: k in rows <==> k < n
  }

  /** The values of rows `0 .. n - 1` in index order. */
  function ListOf<V>(rows: map<nat, V>, n: nat): (r: seq<V>)
    requires forall k: nat :: k < n ==> k in rows
    ensures |r| == n
    ensures forall i :: 0 <= i < n ==> r[i] == rows[i]
  {
    seq(n, i requires 0 <= i < n => rows[i])
  }

  /** The indices `lo .. hi - 1`. */
  function Range(lo: nat, hi: nat): (r: set<nat>)
    ensures forall k: nat :: k in r <==> lo <= k < hi
    ensures |r| == if lo < hi then hi - lo else 0
    decreases hi
  {
    if hi <= lo then {} else Range(lo, hi - 1) + {hi - 1}
  }

  lemma IndexedCount<V>(rows: map<nat, V>, n: nat)
    requires Indexed(rows, n)
    ensures |rows| == n
  {
    assert rows.Keys == Range(0, n);
  }

  /** Where `_shift_gte(at, delta)` moves the row at `k`. */
  function Moved(k: nat, at: nat, delta: int): nat
    requires k >= at ==> k + delta >= 0
  {
    if k >= at then (k + delta) as nat else k
  }

  /** `_shift_gte(at, delta)` on the rows: the rows from `at` on moved by
      `delta`. */
  function Shifted<V>(rows: map<nat, V>, at: nat, delta: int): map<nat, V>
    requires forall k: nat :: k in rows && k >= at ==> k + delta >= 0
  {
    var stay := map k | k in rows && k < at :: rows[k];
    var moved := map j | j in MovedKeys(rows, at, delta) :: rows[(j - delta) as nat];
    stay + moved
  }

  /** Where the rows from `at` on land. */
  function MovedKeys<V>(rows: map<nat, V>, at: nat, delta: int): set<nat>
    requires forall k: nat :: k in rows && k >= at ==> k + delta >= 0
  {
    set k | k in rows && k >= at :: (k + delta) as nat
  }

  /** `r` is `rows` with every row at `at` or beyond moved by `delta`. */
  ghost predicate MovedFrom<V>(r: map<nat, V>, rows: map<nat, V>, at: nat, delta: int)
    requires forall k: nat :: k in rows && k >= at ==> k + delta >= 0
  {
    && (forall k: nat {:trigger rows[k]} :: k in rows && k < at ==> k in r && r[k] == rows[k])
    && (forall k: nat {:trigger Moved(k, at, delta)} :: k in rows && k >= at ==> Moved(k, at, delta) in r && r[Moved(k, at, delta)] == rows[k])
    && (forall j: nat :: j in r ==> (j < at && j in rows) || MovedRow(rows, j - delta, at))
  }

  /** `i` is a row at `at` or beyond. */
  ghost predicate MovedRow<V>(rows: map<nat, V>, i: int, at: nat)
  {
    i >= at && i as nat in rows
  }

  /** `Shifted` moves exactly the rows from `at` on, when no moved row
      lands on one that stays. */
  lemma ShiftedMeaning<V>(rows: map<nat, V>, at: nat, delta: int)
    requires forall k: nat :: k in rows && k >= at ==> k + delta >= 0
    requires forall k: nat :: k in rows && k < at ==> k !in MovedKeys(rows, at, delta)
    ensures MovedFrom(Shifted(rows, at, delta), rows, at, delta)
  {
    var r := Shifted(rows, at, delta);
    forall k: nat | k in rows && k >= at ensures Moved(k, at, delta) in r && r[Moved(k, at, delta)] == rows[k] {
      ShiftedLands(rows, at, delta, k);
    }
    ShiftedOnly(rows, at, delta);
  }

  /** The row at `k`, from `at` on, lands at `k + delta`. */
  lemma ShiftedLands<V>(rows: map<nat, V>, at: nat, delta: int, k: nat)
    requires forall k: nat :: k in rows && k >= at ==> k + delta >= 0
    requires k in rows && k >= at
    ensures (k + delta) as nat in Shifted(rows, at, delta)
    ensures Shifted(rows, at, delta)[(k + delta) as nat] == rows[k]
  {
    var j := (k + delta) as nat;
    assert j in MovedKeys(rows, at, delta);
    assert (j - delta) as nat == k;
  }

  /** Every row of `Shifted` stayed or was moved there. */
  lemma ShiftedOnly<V>(rows: map<nat, V>, at: nat, delta: int)
    requires forall k: nat :: k in rows && k >= at ==> k + delta >= 0
    ensures forall j: nat :: j in Shifted(rows, at, delta) ==> (j < at && j in rows) || MovedRow(rows, j - delta, at)
  {
    forall j: nat | j in Shifted(rows, at, delta) ensures (j < at && j in rows) || MovedRow(rows, j - delta, at) {
      if j in MovedKeys(rows, at, delta) {
        MovedKeyFrom(rows, at, delta, j);
      }
    }
  }

  lemma MovedKeyFrom<V>(rows: map<nat, V>, at: nat, delta: int, j: nat)
    requires forall k: nat :: k in rows && k >= at ==> k + delta >= 0
    requires j in MovedKeys(rows, at, delta)
    ensures MovedRow(rows, j - delta, at)
  {
    var k: nat :| k in rows && k >= at && (k + delta) as nat == j;
  }

  /** Rows `0 .. at - 1` and `at + gap .. n + gap - 1`: a list of length
      `n` with a hole of `gap` rows opened at `at`. */
  ghost predicate Opened<V>(rows: map<nat, V>, at: nat, gap: nat, n: nat)
  {
    at <= n && forall k: nat :: k in rows <==> k < at || at + gap <= k < n + gap
  }

  /** Moving the rows from `at` on up by `gap` opens a hole there. */
  lemma ShiftOpens<V>(rows: map<nat, V>, n: nat, at: nat, gap: nat, r: map<nat, V>)
    requires Indexed(rows, n) && at <= n
    requires MovedFrom(r, rows, at, gap)
    ensures Opened(r, at, gap, n)
    ensures forall k: nat :: k < at ==> r[k] == rows[k]
    ensures forall k: nat :: at <= k < n ==> r[k + gap] == rows[k]
  {
    forall k: nat | k < at ensures k in r && r[k] == rows[k] {
      assert k in rows && rows[k] == rows[k];
    }
    forall k: nat | at <= k < n ensures k + gap in r && r[k + gap] == rows[k] {
      assert Moved(k, at, gap) == k + gap;
    }
    forall k: nat | k in r ensures k < at || at + gap <= k < n + gap {
      assert (k < at && k in rows) || (k - (gap as int) >= at && (k - (gap as int)) as nat in rows);
    }
    forall k: nat | at + gap <= k < n + gap ensures k in r {
      var j: nat := k - gap;
      assert j in rows;
      assert Moved(j, at, gap) == k;
    }
  }

  /** Moving the rows from `from` on down by `gap` closes the hole
      `[at, at + gap)`, for any `from` inside or at the end of the hole,
      or anywhere at or past `at` when no row lies above it; an empty
      hole needs no move. */
  ghost predicate Closes(at: nat, gap: nat, n: nat, from: nat)
  {
    gap == 0 || (at <= from && (from <= at + gap || n == at))
  }

  /** No row from `from` on moves below zero or onto a row that stays. */
  lemma ShiftClosable<V>(rows: map<nat, V>, n: nat, at: nat, gap: nat, from: nat)
    requires Opened(rows, at, gap, n) && Closes(at, gap, n, from)
    ensures forall k: nat :: k in rows && k >= from ==> k - gap >= 0
    ensures forall k: nat :: k in rows && k < from ==> k !in MovedKeys(rows, from, -(gap as int))
  {
  }

  lemma ShiftCloses<V>(rows: map<nat, V>, n: nat, at: nat, gap: nat, from: nat, r: map<nat, V>)
    requires Opened(rows, at, gap, n) && Closes(at, gap, n, from)
    requires forall k: nat :: k in rows && k >= from ==> k - gap >= 0
    requires MovedFrom(r, rows, from, -(gap as int))
    ensures Indexed(r, n)
    ensures forall k: nat :: k < at ==> r[k] == rows[k]
    ensures forall k: nat :: at <= k < n ==> r[k] == rows[k + gap]
  {
    var d := -(gap as int);
    forall k: nat | k < at ensures k in r && r[k] == rows[k] {
      assert k in rows && rows[k] == rows[k];
      if k >= from {
        assert Moved(k, from, d) == k;
      }
    }
    forall k: nat | k in r ensures k < n {
      if !(k < from && k in rows) {
        assert MovedRow(rows, k - d, from);
      }
    }
    forall k: nat | at <= k < n ensures k in r && r[k] == rows[k + gap] {
      var j: nat := k + gap;
      assert j in rows && rows[j] == rows[j];
      if j >= from {
        assert Moved(j, from, d) == k;
      }
    }
  }

  /** `lo .. hi - 1` removed from the rows. */
  function Without<V>(rows: map<nat, V>, keys: set<nat>): (r: map<nat, V>)
    ensures forall k: nat :: k in r <==> k in rows && k !in keys
    ensures forall k: nat :: k in r ==> r[k] == rows[k]
  {
    map k | k in rows && k !in keys :: rows[k]
  }

  /** The rows of `lo .. hi - 1`: the ones `items.delete()` removes. */
  function RowsIn<V>(rows: map<nat, V>, lo: nat, hi: nat): set<nat>
  {
    set k | k in rows && lo <= k < hi
  }

  lemma RowsInRange<V>(rows: map<nat, V>, n: nat, lo: nat, hi: nat)
    requires Indexed(rows, n) && lo <= hi <= n
    ensures RowsIn(rows, lo, hi) == Range(lo, hi)
    ensures |RowsIn(rows, lo, hi)| == hi - lo
  {
    assert RowsIn(rows, lo, hi) == Range(lo, hi);
  }

  /** Deleting the rows `lo .. hi - 1` of a list `before` opens a hole
      of their number there. */
  lemma DeletedOpens<V>(rows: map<nat, V>, before: seq<V>, n: nat, lo: nat, hi: nat, r: map<nat, V>)
    requires Indexed(rows, n) && lo <= hi <= n && |before| == n
    requires forall i :: 0 <= i < n ==> before[i] == rows[i]
    requires r == Without(rows, Range(lo, hi))
    ensures Opened(r, lo, hi - lo, n - (hi - lo))
    ensures forall k: nat :: k < lo ==> r[k] == before[k]
    ensures forall k: nat :: hi <= k < n ==> r[k] == before[k]
  {
  }

  /** A hole reaching the end leaves the rows before it. */
  lemma DeletedToEnd<V>(r: map<nat, V>, lo: nat, n: nat)
    requires lo <= n && Opened(r, lo, n - lo, lo)
    ensures Indexed(r, lo)
  {
  }

  lemma DeletedTail<V>(r: map<nat, V>, before: seq<V>, lo: nat, n: nat, c: seq<V>)
    requires lo <= n == |before| && forall k: nat :: k < lo ==> k in r && r[k] == before[k]
    requires |c| == lo && forall i :: 0 <= i < lo ==> c[i] == r[i]
    ensures c == before[..lo] + before[n..]
  {
  }

  // ---------------------------------------------------------------------
  // Python's list operations, as the reference
  // ---------------------------------------------------------------------

  function Reverse<V>(xs: seq<V>): (r: seq<V>)
    ensures |r| == |xs|
    ensures forall i :: 0 <= i < |xs| ==> r[i] == xs[|xs| - 1 - i]
  {
    if |xs| == 0 then [] else Reverse(xs[1..]) + [xs[0]]
  }

  /** `xs[start:stop] = values` with step 1, in Python. */
  function PyAssign<V>(xs: seq<V>, start: Option<int>, stop: Option<int>, values: seq<V>): seq<V>
  {
    var lo := DbUtils.PyBound(start, |xs|, 0);
    var hi := DbUtils.PyBound(stop, |xs|, |xs|);
    xs[..lo] + values + xs[if hi < lo then lo else hi..]
  }

  /** `del xs[start:stop]` in Python. */
  function PyDelete<V>(xs: seq<V>, start: Option<int>, stop: Option<int>): seq<V>
  {
    PyAssign(xs, start, stop, [])
  }

  /** The first position of `v`, as `list.index` finds it. */
  function IndexOf<V(==)>(xs: seq<V>, v: V): (i: nat)
    requires v in xs
    ensures i < |xs| && xs[i] == v && v !in xs[..i]
  {
    DbUtils.FirstIndex(xs, v)
  }

  // ---------------------------------------------------------------------
  // Sorting by key, as `list.sort` does (a stable sort)
  // ---------------------------------------------------------------------

  ghost predicate SortedByKey<V>(xs: seq<V>, key: V -> int)
  {
    forall i, j :: 0 <= i < j < |xs| ==> key(xs[i]) <= key(xs[j])
  }

  /** `x` placed after every element whose key is not greater. */
  function InsertByKey<V>(x: V, xs: seq<V>, key: V -> int): (r: seq<V>)
    ensures multiset(r) == multiset(xs) + multiset{x}
    ensures SortedByKey(xs, key) ==> SortedByKey(r, key)
  {
    if |xs| == 0 then [x]
    else if key(x) < key(xs[0]) then
      ConsSorted(x, xs, key);
      [x] + xs
    else
      var tail := InsertByKey(x, xs[1..], key);
      assert xs == [xs[0]] + xs[1..];
      TailAbove(x, xs, key, tail);
      ConsSorted(xs[0], tail, key);
      [xs[0]] + tail
  }

  /** A value not above any key of a sorted list heads it sorted. */
  lemma ConsSorted<V>(x: V, xs: seq<V>, key: V -> int)
    ensures SortedByKey(xs, key) && (forall j :: 0 <= j < |xs| ==> key(x) <= key(xs[j])) ==> SortedByKey([x] + xs, key)
  {
  }

  /** Inserting a value not below the head of a sorted list into its tail
      keeps every value there not below the head. */
  lemma TailAbove<V>(x: V, xs: seq<V>, key: V -> int, tail: seq<V>)
    requires |xs| > 0 && key(xs[0]) <= key(x)
    requires multiset(tail) == multiset(xs[1..]) + multiset{x}
    ensures SortedByKey(xs, key) ==> SortedByKey(xs[1..], key)
    ensures SortedByKey(xs, key) ==> forall j :: 0 <= j < |tail| ==> key(xs[0]) <= key(tail[j])
  {
    if SortedByKey(xs, key) {
      forall j | 0 <= j < |tail| ensures key(xs[0]) <= key(tail[j]) {
        assert tail[j] in multiset(tail);
        if tail[j] != x {
          assert tail[j] in xs[1..];
        }
      }
    }
  }

  /** `sorted(xs, key=key)`. */
  function SortByKey<V>(xs: seq<V>, key: V -> int): (r: seq<V>)
    ensures multiset(r) == multiset(xs)
    ensures SortedByKey(r, key)
  {
    if |xs| == 0 then []
    else
      assert xs == xs[..|xs| - 1] + [xs[|xs| - 1]];
      InsertByKey(xs[|xs| - 1], SortByKey(xs[..|xs| - 1], key), key)
  }

  // ---------------------------------------------------------------------
  // Slice assignment as written
  // ---------------------------------------------------------------------

  /** What `xs[start:stop] = values` leaves in the rows, for cleaned bounds
      with `start <= len(xs)`. The `izip` of indices and values draws an
      index before it finds the values exhausted, so with surplus indices
      the index `start + len(values)` is lost: that row is kept and the
      deletion starts one row later. Bounds with `stop < start` insert at
      `stop`. */
  function AssignedAsWritten<V>(xs: seq<V>, start: nat, stop: nat, values: seq<V>): seq<V>
    requires start <= |xs|
  {
    var n := |xs|;
    var m := |values|;
    var width := if stop > start then stop - start else 0;
    var paired := if width < m then width else m;
    if start + paired > n then xs[..start] + values
    else if m > width then
      (if stop >= start then xs[..start] + values + xs[stop..] else xs[..stop] + values + xs[stop..])
    else if m == width || m + 1 == width then xs[..start] + values + xs[start + m..]
    else
      xs[..start] + values + xs[start + m..(if start + m + 1 < n then start + m + 1 else n)]
      + (if stop < n then xs[stop..] else [])
  }

  /** Enough values for the indices, and bounds in order: the code agrees
      with Python. */
  lemma AssignedAsWrittenAgrees<V>(xs: seq<V>, start: nat, stop: nat, values: seq<V>)
    requires start <= |xs| && start <= stop && |values| >= stop - start
    ensures AssignedAsWritten(xs, start, stop, values) == PyAssign(xs, Some(start), Some(stop), values)
  {
  }

  /** `b.seq = [a, b, c, d]; b.seq[0:2] = [x]` leaves `[x, b, c, d]`,
      where Python gives `[x, c, d]`. */
  lemma SurplusIndexKept()
    ensures AssignedAsWritten([10, 11, 12, 13], 0, 2, [99]) == [99, 11, 12, 13]
    ensures PyAssign([10, 11, 12, 13], Some(0), Some(2), [99]) == [99, 12, 13]
  {
    var xs := [10, 11, 12, 13];
    assert xs[1..] == [11, 12, 13];
    assert xs[2..] == [12, 13];
  }

  /** `b.seq[3:1] = [v]` on four rows inserts at index 1, where Python
      inserts at index 3. */
  lemma ReversedBoundsInsertAtStop()
    ensures AssignedAsWritten([10, 11, 12, 13], 3, 1, [99]) == [10, 99, 11, 12, 13]
    ensures PyAssign([10, 11, 12, 13], Some(3), Some(1), [99]) == [10, 11, 12, 99, 13]
  {
    var xs := [10, 11, 12, 13];
    assert xs[..1] == [10] && xs[1..] == [11, 12, 13];
    assert xs[..3] == [10, 11, 12] && xs[3..] == [13];
  }

  // ---------------------------------------------------------------------
  // Slice bounds and splices
  // ---------------------------------------------------------------------

  /** The rows `lo .. hi - 1` a cleaned slice selects among `n`:
      `_do_slice` filters on `index >= start` when `start` is set and
      non-zero and on `index < stop` when `stop` is set. */
  function Bounds(c: DbUtils.Slice, n: nat): (b: (nat, nat))
    requires c.start.None? || c.start.value >= 0
    requires c.stop.None? || c.stop.value >= 0
    ensures b.0 <= b.1 <= n
  {
    var lo := if c.start.Some? && c.start.value < n then c.start.value else if c.start.Some? then n else 0;
    var hi := if c.stop.Some? && c.stop.value < n then c.stop.value else n;
    (lo, if hi < lo then lo else hi)
  }

  /** The bounds of a cleaned slice are Python's. */
  lemma BoundsArePython(s: DbUtils.Slice, n: nat, replaceNone: bool, allow: DbUtils.StepRule)
    requires DbUtils.CleanSlice(s, DbUtils.Deferred(n), replaceNone, allow).Success?
    ensures var c := DbUtils.CleanSlice(s, DbUtils.Deferred(n), replaceNone, allow).value.slice;
            && (c.start.None? || c.start.value >= 0)
            && (c.stop.None? || c.stop.value >= 0)
            && var lo := DbUtils.PyBound(s.start, n, 0);
               var hi := DbUtils.PyBound(s.stop, n, n);
               Bounds(c, n) == (lo, if hi < lo then lo else hi)
  {
    DbUtils.CleanSliceBounds(s, DbUtils.Deferred(n), replaceNone, allow);
  }

  /** Python's slice assignment and slicing in terms of the bounds of
      the cleaned slice. */
  lemma PythonByBounds<V>(xs: seq<V>, s: DbUtils.Slice, replaceNone: bool, allow: DbUtils.StepRule, values: seq<V>)
    requires DbUtils.CleanSlice(s, DbUtils.Deferred(|xs|), replaceNone, allow).Success?
    ensures var c := DbUtils.CleanSlice(s, DbUtils.Deferred(|xs|), replaceNone, allow).value.slice;
            && (c.start.None? || c.start.value >= 0)
            && (c.stop.None? || c.stop.value >= 0)
            && var b := Bounds(c, |xs|);
               && PyAssign(xs, s.start, s.stop, values) == xs[..b.0] + values + xs[b.1..]
               && DbUtils.PySlice(xs, s.start, s.stop) == xs[b.0..b.1]
  {
    BoundsArePython(s, |xs|, replaceNone, allow);
  }

  /** `clean_slice(..., allow_step=[1])` without `replace_none` refuses
      exactly the steps other than `None`, 0 and 1. */
  lemma StepOneOnly(s: DbUtils.Slice, n: nat)
    ensures var c := DbUtils.CleanSlice(s, DbUtils.Deferred(n), false, DbUtils.Steps([1]));
            (c.Failure? <==> s.step.Some? && s.step.value != 0 && s.step.value != 1)
  {
  }

  /** The rows `del xs[s]` removes are those between the bounds of the
      cleaned slice, the upper one being its stop cut to the length. */
  lemma DeleteByBounds<V>(xs: seq<V>, s: DbUtils.Slice)
    requires DbUtils.CleanSlice(s, DbUtils.Deferred(|xs|), false, DbUtils.Steps([1])).Success?
    ensures var c := DbUtils.CleanSlice(s, DbUtils.Deferred(|xs|), false, DbUtils.Steps([1])).value.slice;
            && (c.start.None? || c.start.value >= 0)
            && (c.stop.None? || c.stop.value >= 0)
            && var b := Bounds(c, |xs|);
               && (c.stop.Some? ==> b.1 == if c.stop.value < b.0 then b.0 else if c.stop.value < |xs| then c.stop.value else |xs|)
               && (c.stop.None? ==> b.1 == |xs|)
               && PyDelete(xs, s.start, s.stop) == xs[..b.0] + xs[b.1..]
  {
    PythonByBounds(xs, s, false, DbUtils.Steps([1]), []);
    var c := DbUtils.CleanSlice(s, DbUtils.Deferred(|xs|), false, DbUtils.Steps([1])).value.slice;
    var b := Bounds(c, |xs|);
    assert xs[..b.0] + [] + xs[b.1..] == xs[..b.0] + xs[b.1..];
  }

  /** Python's `xs[lo:hi] = values` after the first `w` rows of the range
      were overwritten and the rest of the values go in at `hi`. */
  lemma InsertAfterUpdate<V>(before: seq<V>, lo: nat, hi: nat, values: seq<V>, w: nat, c: seq<V>)
    requires lo + w == hi <= |before| && w < |values|
    requires c == before[..lo] + values[..w] + before[hi..]
    ensures c[..hi] + values[w..] + c[hi..] == before[..lo] + values + before[hi..]
  {
    assert c[..hi] == before[..lo] + values[..w];
    assert c[hi..] == before[hi..];
    assert values[..w] + values[w..] == values;
  }

  /** Python's `xs[lo:hi] = values` after the values overwrote the start
      of the range and the rest of it is deleted. */
  lemma DeleteAfterUpdate<V>(before: seq<V>, lo: nat, hi: nat, values: seq<V>, c: seq<V>)
    requires lo + |values| < hi <= |before|
    requires c == before[..lo] + values + before[lo + |values|..]
    ensures c[..lo + |values|] + c[hi..] == before[..lo] + values + before[hi..]
  {
    assert c[..lo + |values|] == before[..lo] + values;
    assert c[hi..] == before[hi..];
  }

  /** A run `vs` put in place of `before[at..from]`. */
  lemma SpliceIn<V>(c: seq<V>, before: seq<V>, at: nat, vs: seq<V>, from: nat)
    requires at <= from <= |before| && |c| == at + |vs| + (|before| - from)
    requires forall k :: 0 <= k < at ==> c[k] == before[k]
    requires forall k :: at <= k < at + |vs| ==> c[k] == vs[k - at]
    requires forall k :: at + |vs| <= k < |c| ==> c[k] == before[k - at - |vs| + from]
    ensures c == before[..at] + vs + before[from..]
  {
  }

  /** A run of the rows cut out. */
  lemma SpliceOut<V>(c: seq<V>, before: seq<V>, at: nat, gap: nat)
    requires at + gap <= |before| && |c| == |before| - gap
    requires forall k :: 0 <= k < at ==> c[k] == before[k]
    requires forall k :: at <= k < |c| ==> c[k] == before[k + gap]
    ensures c == before[..at] + before[at + gap..]
  {
  }

  /** The state of the `izip` loop of a slice assignment after `k` of the
      values `vs`, written from `start` over the `n` rows `before`: the rows
      before `start` kept, the first `k` values written, and, until a row
      was missing (`extended`), the rest of the old rows kept. */
  ghost predicate Updating<V>(rows: map<nat, V>, size: nat, before: seq<V>, n: nat, start: nat, vs: seq<V>, k: nat, extended: bool)
  {
    && k <= |vs| && start <= n && |before| == n
    && (extended <==> start + k > n)
    && size == (if extended then start + k else n)
    && Indexed(rows, size)
    && (forall j: nat :: j < start ==> j in rows && rows[j] == before[j])
    && (forall j: nat :: start <= j < start + k ==> j in rows && rows[j] == vs[j - start])
    && (!extended ==> forall j: nat :: start + k <= j < n ==> j in rows && rows[j] == before[j])
  }

  /** An existing row overwritten by the next value. */
  lemma UpdateStep<V>(rows: map<nat, V>, size: nat, before: seq<V>, n: nat, start: nat, vs: seq<V>, k: nat)
    requires Updating(rows, size, before, n, start, vs, k, false) && k < |vs| && start + k in rows
    ensures Updating(rows[start + k := vs[k]], size, before, n, start, vs, k + 1, false)
  {
  }

  /** A missing row created for the next value. */
  lemma CreateStep<V>(rows: map<nat, V>, size: nat, before: seq<V>, n: nat, start: nat, vs: seq<V>, k: nat, extended: bool)
    requires Updating(rows, size, before, n, start, vs, k, extended) && k < |vs|
    requires extended || start + k !in rows
    ensures Updating(rows[start + k := vs[k]], size + 1, before, n, start, vs, k + 1, true)
  {
  }

  /** Once every value is written, the list is the old one with the values
      spliced in from `start`. */
  lemma UpdatedContents<V>(rows: map<nat, V>, size: nat, before: seq<V>, n: nat, start: nat, vs: seq<V>, extended: bool, c: seq<V>)
    requires Updating(rows, size, before, n, start, vs, |vs|, extended)
    requires |c| == size && forall i :: 0 <= i < size ==> c[i] == rows[i]
    ensures !extended ==> c == before[..start] + vs + before[start + |vs|..]
    ensures extended ==> c == before[..start] + vs
  {
    if extended {
      SpliceIn(c, before, start, vs, n);
    } else {
      SpliceIn(c, before, start, vs, start + |vs|);
    }
  }

  /** Rows `0 .. n - 1`, the first `i` of them holding `values`. */
  ghost predicate WrittenUpTo<V>(rows: map<nat, V>, n: nat, values: seq<V>, i: nat)
  {
    && Indexed(rows, n) && |values| == n && i <= n
    && forall k: nat :: k < i ==> k in rows && rows[k] == values[k]
  }

  lemma WriteStep<V>(rows: map<nat, V>, n: nat, values: seq<V>, i: nat)
    requires WrittenUpTo(rows, n, values, i) && i < n
    ensures i in rows
    ensures WrittenUpTo(rows[i := values[i]], n, values, i + 1)
  {
  }

  lemma WrittenAll<V>(rows: map<nat, V>, n: nat, values: seq<V>, c: seq<V>)
    requires WrittenUpTo(rows, n, values, n)
    requires |c| == n && forall i :: 0 <= i < n ==> c[i] == rows[i]
    ensures c == values
  {
  }

  lemma SortedLength<V>(xs: seq<V>, key: V -> int)
    ensures |SortByKey(xs, key)| == |xs|
  {
    assert |SortByKey(xs, key)| == |multiset(SortByKey(xs, key))| == |multiset(xs)|;
  }

  /** Rows `0 .. n - 1` holding the list `xs`. */
  ghost predicate Holds<V>(rows: map<nat, V>, n: nat, xs: seq<V>)
  {
    Indexed(rows, n) && |xs| == n && forall k: nat :: k < n ==> k in rows && rows[k] == xs[k]
  }

  /** A row created at the end holds the next value. */
  lemma AppendStep<V>(rows: map<nat, V>, n: nat, before: seq<V>, vs: seq<V>, i: nat)
    requires i < |vs| && Holds(rows, n, before + vs[..i])
    ensures Holds(rows[n := vs[i]], n + 1, before + vs[..i + 1])
  {
    assert before + vs[..i + 1] == (before + vs[..i]) + [vs[i]];
  }

  lemma HoldsContents<V>(rows: map<nat, V>, n: nat, xs: seq<V>, c: seq<V>)
    requires Holds(rows, n, xs)
    requires |c| == n && forall i :: 0 <= i < n ==> c[i] == rows[i]
    ensures c == xs
  {
  }

  /** A hole of `|vs|` rows opened at `at` in the list `before` of `n`
      rows, its first `j` rows filled with the values. */
  ghost predicate Filling<V>(rows: map<nat, V>, at: nat, vs: seq<V>, n: nat, before: seq<V>, j: nat)
  {
    && j <= |vs| && at <= n && |before| == n
    && (forall k: nat :: k in rows <==> k < at + j || at + |vs| <= k < n + |vs|)
    && (forall k: nat :: k < at ==> k in rows && rows[k] == before[k])
    && (forall k: nat :: at <= k < at + j ==> k in rows && rows[k] == vs[k - at])
    && (forall k: nat :: at <= k < n ==> k + |vs| in rows && rows[k + |vs|] == before[k])
  }

  lemma FillStart<V>(rows: map<nat, V>, at: nat, vs: seq<V>, n: nat, before: seq<V>)
    requires Opened(rows, at, |vs|, n) && |before| == n
    requires forall k: nat :: k < at ==> rows[k] == before[k]
    requires forall k: nat :: at <= k < n ==> rows[k + |vs|] == before[k]
    ensures Filling(rows, at, vs, n, before, 0)
  {
  }

  lemma FillStep<V>(rows: map<nat, V>, at: nat, vs: seq<V>, n: nat, before: seq<V>, j: nat)
    requires Filling(rows, at, vs, n, before, j) && j < |vs|
    ensures Filling(rows[at + j := vs[j]], at, vs, n, before, j + 1)
  {
  }

  lemma FillDone<V>(rows: map<nat, V>, at: nat, vs: seq<V>, n: nat, before: seq<V>)
    requires Filling(rows, at, vs, n, before, |vs|)
    ensures Indexed(rows, n + |vs|)
  {
  }

  /** The filled hole holds the values between the two parts of `before`. */
  lemma FillContents<V>(rows: map<nat, V>, at: nat, vs: seq<V>, n: nat, before: seq<V>, c: seq<V>)
    requires Filling(rows, at, vs, n, before, |vs|)
    requires |c| == n + |vs| && forall i :: 0 <= i < n + |vs| ==> c[i] == rows[i]
    ensures c == before[..at] + vs + before[at..]
  {
    ghost var want := before[..at] + vs + before[at..];
    forall k: nat | k < n + |vs| ensures c[k] == want[k] {
      if at + |vs| <= k {
        var i: nat := k - |vs|;
        assert rows[i + |vs|] == before[i];
      }
    }
  }

  // ---------------------------------------------------------------------
  // The manager
  // ---------------------------------------------------------------------

  class ListTable<V(==)> {
    /** The rows of the owner: index to value. */
    var rows: map<nat, V>
    /** The length the rows are kept at. */
    ghost var size: nat

    ghost predicate Valid()
      reads this
    {
      Indexed(rows, size)
    }

    /** `list(manager)`: the values in index order. */
    function Contents(): (c: seq<V>)
      reads this
      requires Valid()
      ensures |c| == size
      ensures forall i :: 0 <= i < size ==> c[i] == rows[i]
    {
      IndexedCount(rows, size);
      ListOf(rows, |rows|)
    }

    constructor()
      ensures Valid() && Contents() == []
    {
      rows := map[];
      size := 0;
    }

    /** `len(manager)`, `manager.count()`. */
    method Count() returns (n: nat)
      requires Valid()
      ensures n == |Contents()|
    {
      IndexedCount(rows, size);
      n := |rows|;
    }

    /** `manager.count(value)`: the rows holding `value`. */
    method CountOf(v: V) returns (n: nat)
      requires Valid()
      ensures n == multiset(Contents())[v]
    {
      var keys := set k | k in rows && rows[k] == v;
      assert keys == Matching(rows, size, v);
      CountMatches(rows, size, v);
      assert ListOf(rows, size) == Contents();
      n := |keys|;
    }

    /** `value in manager`. */
    method Contains(v: V) returns (b: bool)
      requires Valid()
      ensures b <==> v in Contents()
    {
      b := exists k :: k in rows && rows[k] == v;
      if b {
        var k :| k in rows && rows[k] == v;
        assert Contents()[k] == v;
      }
    }

    /** `manager[index]` for an integer: only `0 <= index < len` is a row;
        a negative index is not counted from the end. */
    method GetItem(index: int) returns (r: Result<V, Error>)
      requires Valid()
      ensures 0 <= index < |Contents()| ==> r == Success(Contents()[index])
      ensures !(0 <= index < |Contents()|) ==> r == Failure(IndexError)
    {
      if 0 <= index && index as nat in rows {
        r := Success(rows[index]);
      } else {
        r := Failure(IndexError);
      }
    }

    /** `_update_item(index, value)`: whether a row was there to update. */
    method UpdateItem(index: int, v: V) returns (found: bool)
      modifies this
      ensures found <==> 0 <= index && index as nat in old(rows)
      ensures rows == if found then old(rows)[index as nat := v] else old(rows)
      ensures size == old(size)
    {
      found := 0 <= index && index as nat in rows;
      if found {
        rows := rows[index as nat := v];
      }
    }

    /** `manager[index] = value` for an integer. */
    method SetItem(index: int, v: V) returns (r: Result<(), Error>)
      requires Valid()
      modifies this
      ensures Valid()
      ensures 0 <= index < |old(Contents())| ==> r == Success(()) && Contents() == old(Contents())[index := v]
      ensures !(0 <= index < |old(Contents())|) ==> r == Failure(IndexError) && Contents() == old(Contents())
    {
      ghost var before := Contents();
      var found := UpdateItem(index, v);
      r := if found then Success(()) else Failure(IndexError);
      if found {
        assert Contents() == before[index := v];
      }
    }

    /** `_shift_gte(index, delta)`: nothing for a zero delta. */
    method ShiftGte(at: nat, delta: int)
      requires forall k: nat :: k in rows && k >= at ==> k + delta >= 0
      requires forall k: nat :: k in rows && k < at ==> k !in MovedKeys(rows, at, delta)
      modifies this
      ensures delta == 0 ==> rows == old(rows)
      ensures MovedFrom(rows, old(rows), at, delta)
      ensures size == old(size)
    {
      if delta == 0 {
        forall j: nat | j in rows ensures (j < at && j in rows) || MovedRow(rows, j - delta, at) {
        }
        return;
      }
      ShiftedMeaning(rows, at, delta);
      rows := Shifted(rows, at, delta);
    }

    /** `_create_item(index, value)`. */
    method CreateItem(index: nat, v: V)
      modifies this
      ensures rows == old(rows)[index := v] && size == old(size)
    {
      rows := rows[index := v];
    }

    /** `manager.append(value)`: a row at index `count()`. */
    method Append(v: V)
      requires Valid()
      modifies this
      ensures Valid() && Contents() == old(Contents()) + [v]
    {
      ghost var before := Contents();
      var n := Count();
      CreateItem(n, v);
      size := size + 1;
      assert Contents() == before + [v];
    }

    /** `manager.extend(seq)`: rows at `count() + i`. */
    method Extend(vs: seq<V>)
      requires Valid()
      modifies this
      ensures Valid() && Contents() == old(Contents()) + vs
    {
      ghost var before := Contents();
      var count := Count();
      var i := 0;
      assert vs[..0] == [];
      while i < |vs|
        invariant i <= |vs| && size == count + i
        invariant Holds(rows, size, before + vs[..i])
        decreases |vs| - i
      {
        ghost var r0 := rows;
        CreateItem(count + i, vs[i]);
        AppendStep(r0, count + i, before, vs, i);
        size := size + 1;
        i := i + 1;
      }
      assert vs[..i] == vs;
      HoldsContents(rows, size, before + vs, Contents());
    }

    /** Closes the hole `[at, at + gap)` of rows holding the list
        `before` less that run: `_shift_gte(from, -gap)`. */
    method CloseGap(at: nat, gap: nat, ghost n: nat, from: nat, ghost before: seq<V>)
      requires Opened(rows, at, gap, n) && Closes(at, gap, n, from) && |before| == n + gap
      requires forall k: nat :: k < at ==> rows[k] == before[k]
      requires forall k: nat :: at + gap <= k < n + gap ==> rows[k] == before[k]
      modifies this
      ensures Indexed(rows, n) && size == old(size)
      ensures ListOf(rows, n) == before[..at] + before[at + gap..]
    {
      ghost var pre := rows;
      ShiftClosable(rows, n, at, gap, from);
      ShiftGte(from, -(gap as int));
      ShiftCloses(pre, n, at, gap, from, rows);
      forall k: nat | at <= k < n ensures rows[k] == before[k + gap] {
        assert rows[k] == pre[k + gap];
      }
      SpliceOut(ListOf(rows, n), before, at, gap);
    }

    /** Opens a hole of `gap` rows at `at` of a valid list:
        `_shift_gte(at, gap)`. */
    method OpenGap(at: nat, gap: nat)
      requires Valid() && at <= size
      modifies this
      ensures Opened(rows, at, gap, size) && size == old(size)
      ensures forall k: nat :: k < at ==> rows[k] == old(rows)[k]
      ensures forall k: nat :: at <= k < size ==> rows[k + gap] == old(rows)[k]
    {
      ghost var pre := rows;
      ShiftGte(at, gap);
      ShiftOpens(pre, size, at, gap, rows);
    }

    /** Deletes row `index` and closes the gap: `item.delete()` followed
        by `_shift_gte(index, -1)`. */
    method DeleteAt(index: nat)
      requires Valid() && index < size
      modifies this
      ensures Valid() && Contents() == old(Contents())[..index] + old(Contents())[index + 1..]
    {
      ghost var before := Contents();
      rows := rows - {index};
      CloseGap(index, 1, size - 1, index, before);
      size := size - 1;
    }

    /** `manager.pop(index=None)`: `None` is the last row and a negative
        index counts from the end; the value is returned and the later rows
        move down. */
    method Pop(index: Option<int>) returns (r: Result<V, Error>)
      requires Valid()
      modifies this
      ensures Valid()
      ensures var n := |old(Contents())|;
              var i := if index.None? then n - 1 else if index.value < 0 then n + index.value else index.value;
              && (0 <= i < n ==> r == Success(old(Contents())[i])
                                 && Contents() == old(Contents())[..i] + old(Contents())[i + 1..])
              && (!(0 <= i < n) ==> r == Failure(IndexError) && Contents() == old(Contents()))
    {
      var n := Count();
      var i := if index.None? then n - 1 else if index.value < 0 then n + index.value else index.value;
      if i < 0 {
        return Failure(IndexError);
      }
      var item := GetItem(i);
      if item.Failure? {
        return Failure(IndexError);
      }
      DeleteAt(i);
      r := Success(item.value);
    }

    /** `del manager[index]` for an integer: `pop(index)`. */
    method DelItem(index: int) returns (r: Result<(), Error>)
      requires Valid()
      modifies this
      ensures Valid()
      ensures var n := |old(Contents())|;
              var i := if index < 0 then n + index else index;
              && (0 <= i < n ==> r == Success(()) && Contents() == old(Contents())[..i] + old(Contents())[i + 1..])
              && (!(0 <= i < n) ==> r == Failure(IndexError) && Contents() == old(Contents()))
    {
      var popped := Pop(Some(index));
      r := if popped.Success? then Success(()) else Failure(IndexError);
    }

    /** `manager.index(value)`: the lowest index holding the value. */
    method Index(v: V) returns (r: Result<nat, Error>)
      requires Valid()
      ensures v in Contents() ==> r == Success(IndexOf(Contents(), v))
      ensures v !in Contents() ==> r == Failure(ValueError)
    {
      var found := Contains(v);
      if !found {
        return Failure(ValueError);
      }
      r := Success(IndexOf(Contents(), v));
    }

    /** `manager.remove(value)`: the row with the lowest index holding the
        value is deleted and the later rows move down. */
    method Remove(v: V) returns (r: Result<(), Error>)
      requires Valid()
      modifies this
      ensures Valid()
      ensures v in old(Contents()) ==>
                var i := IndexOf(old(Contents()), v);
                r == Success(()) && Contents() == old(Contents())[..i] + old(Contents())[i + 1..]
      ensures v !in old(Contents()) ==> r == Failure(ValueError) && Contents() == old(Contents())
    {
      var found := Index(v);
      if found.Failure? {
        return Failure(ValueError);
      }
      DeleteAt(found.value);
      r := Success(());
    }

    /** `manager[s]` for a slice (`ReverseListField.slice`): the values of
        the selected rows in index order, reversed for step -1; any other
        non-zero step is a `ValueError`. */
    method GetSlice(s: DbUtils.Slice) returns (r: Result<seq<V>, Error>)
      requires Valid()
      ensures s.step.Some? && s.step.value != 0 && s.step.value != 1 && s.step.value != -1 ==> r == Failure(ValueError)
      ensures s.step == Some(-1) ==> r == Success(Reverse(DbUtils.PySlice(Contents(), s.start, s.stop)))
      ensures s.step.None? || s.step == Some(0) || s.step == Some(1) ==> r == Success(DbUtils.PySlice(Contents(), s.start, s.stop))
    {
      var n := Count();
      var cleaned := DbUtils.CleanSlice(s, DbUtils.Deferred(n), false, DbUtils.Steps([1, -1]));
      if cleaned.Failure? {
        return Failure(ValueError);
      }
      PythonByBounds(Contents(), s, false, DbUtils.Steps([1, -1]), []);
      var c := cleaned.value.slice;
      var (lo, hi) := Bounds(c, n);
      var picked := Contents()[lo..hi];
      if c.step == Some(-1) {
        picked := Reverse(picked);
      }
      r := Success(picked);
    }

    /** `items.delete()` for the rows `lo .. hi - 1` and, when `stop` is
        given, `_shift_gte(stop, -count)`; `hi` is `stop` cut to the
        length and not below `lo`, or the length when there is no `stop`. */
    method DeleteRange(lo: nat, hi: nat, stop: Option<nat>)
      requires Valid() && lo <= hi <= size
      requires stop.Some? ==> hi == if stop.value < lo then lo else if stop.value < size then stop.value else size
      requires stop.None? ==> hi == size
      modifies this
      ensures Valid() && Contents() == old(Contents())[..lo] + old(Contents())[hi..]
    {
      ghost var before := Contents();
      ghost var n := size;
      ghost var pre := rows;
      var items := RowsIn(rows, lo, hi);
      RowsInRange(rows, n, lo, hi);
      var count := |items|;
      rows := Without(rows, items);
      DeletedOpens(pre, before, n, lo, hi, rows);
      if stop.Some? {
        CloseGap(lo, count, n - count, stop.value, before);
        size := n - count;
      } else {
        DeletedToEnd(rows, lo, n);
        size := n - count;
        DeletedTail(rows, before, lo, n, Contents());
      }
    }

    /** `del manager[s]` for a slice: the selected rows are deleted and,
        when `stop` is set, the rows from `stop` on move down by their
        number. */
    method DelSlice(s: DbUtils.Slice) returns (r: Result<(), Error>)
      requires Valid()
      modifies this
      ensures Valid()
      ensures s.step.Some? && s.step.value != 0 && s.step.value != 1 ==> r == Failure(ValueError) && Contents() == old(Contents())
      ensures s.step.None? || s.step == Some(0) || s.step == Some(1) ==>
                r == Success(()) && Contents() == PyDelete(old(Contents()), s.start, s.stop)
    {
      ghost var before := Contents();
      var n := Count();
      var cleaned := DbUtils.CleanSlice(s, DbUtils.Deferred(n), false, DbUtils.Steps([1]));
      StepOneOnly(s, n);
      if cleaned.Failure? {
        return Failure(ValueError);
      }
      DeleteByBounds(before, s);
      var c := cleaned.value.slice;
      var (lo, hi) := Bounds(c, n);
      DeleteRange(lo, hi, if c.stop.Some? then Some(c.stop.value as nat) else None);
      r := Success(());
    }

    /** Fills a hole opened at `at` with `vs`: `_create_item(at + j, v)`
        for each value. */
    method FillRun(at: nat, vs: seq<V>, ghost before: seq<V>)
      requires Opened(rows, at, |vs|, size) && |before| == size
      requires forall k: nat :: k < at ==> rows[k] == before[k]
      requires forall k: nat :: at <= k < size ==> rows[k + |vs|] == before[k]
      modifies this
      ensures Valid() && Contents() == before[..at] + vs + before[at..]
    {
      var j := 0;
      FillStart(rows, at, vs, size, before);
      while j < |vs|
        invariant j <= |vs| && size == old(size)
        invariant Filling(rows, at, vs, size, before, j)
        decreases |vs| - j
      {
        ghost var r0 := rows;
        CreateItem(at + j, vs[j]);
        FillStep(r0, at, vs, size, before, j);
        j := j + 1;
      }
      ghost var n := size;
      FillDone(rows, at, vs, n, before);
      size := size + |vs|;
      FillContents(rows, at, vs, n, before, Contents());
    }

    /** `_shift_gte(at, len(vs))` and a `_create_item` for each value. */
    method InsertRun(at: nat, vs: seq<V>)
      requires Valid() && at <= size
      modifies this
      ensures Valid() && Contents() == old(Contents())[..at] + vs + old(Contents())[at..]
    {
      ghost var before := Contents();
      OpenGap(at, |vs|);
      FillRun(at, vs, before);
    }

    /** The `izip` loop of the slice assignment over the indices
        `start ..` and the values `vs`: rows are updated while they exist,
        and from the first missing one on (`extended`) created. */
    method UpdateOrCreate(start: nat, vs: seq<V>) returns (extended: bool)
      requires Valid() && start <= size
      modifies this
      ensures Valid()
      ensures extended <==> start + |vs| > old(size)
      ensures !extended ==> size == old(size) && Contents() == old(Contents())[..start] + vs + old(Contents())[start + |vs|..]
      ensures extended ==> size == start + |vs| && Contents() == old(Contents())[..start] + vs
    {
      ghost var before := Contents();
      ghost var n := size;
      var k := 0;
      extended := false;
      while k < |vs|
        invariant Updating(rows, size, before, n, start, vs, k, extended)
        decreases |vs| - k
      {
        extended := WriteNext(start, vs, k, extended, before, n);
        k := k + 1;
      }
      UpdatedContents(rows, size, before, n, start, vs, extended, Contents());
    }

    /** One turn of the `izip` loop: the row at `start + k` updated while
        the rows exist, created from the first missing one on. */
    method WriteNext(start: nat, vs: seq<V>, k: nat, extended: bool, ghost before: seq<V>, ghost n: nat)
      returns (extended': bool)
      requires Updating(rows, size, before, n, start, vs, k, extended) && k < |vs|
      modifies this
      ensures Updating(rows, size, before, n, start, vs, k + 1, extended')
    {
      ghost var r0 := rows;
      extended' := extended;
      if !extended {
        var found := UpdateItem(start + k, vs[k]);
        if found {
          UpdateStep(r0, size, before, n, start, vs, k);
        } else {
          extended' := true;
          CreateItem(start + k, vs[k]);
          CreateStep(r0, size, before, n, start, vs, k, false);
          size := size + 1;
        }
      } else {
        CreateItem(start + k, vs[k]);
        CreateStep(r0, size, before, n, start, vs, k, true);
        size := size + 1;
      }
    }

    /** The slice assignment as written on cleaned bounds. The loop is
        the `izip` of the indices `start .. stop - 1` with the values; an
        index left over deletes the rest of the range from it
        (`del self[i:stop]`), values left over are inserted at `stop`. */
    method AssignRange(start: nat, stop: nat, values: seq<V>)
      requires Valid() && start <= size
      modifies this
      ensures Valid() && Contents() == AssignedAsWritten(old(Contents()), start, stop, values)
    {
      ghost var before := Contents();
      var width := if stop > start then stop - start else 0;
      var m := |values|;
      var k := if width < m then width else m;
      var extended := UpdateOrCreate(start, values[..k]);
      // izip drew one more index when the values were used up first
      var consumed := if m < width then m + 1 else width;
      if consumed < width {
        assert values[..k] == values;
        DropSurplus(before, start, stop, values, extended);
      } else {
        PlaceSurplus(before, start, stop, values, k, extended);
      }
    }

    /** The end of the as-written slice assignment when indices are left
        over: `del self[start + len(values) + 1 : stop]`, which finds
        nothing to delete when the values went past the end. */
    method DropSurplus(ghost before: seq<V>, start: nat, stop: nat, values: seq<V>, extended: bool)
      requires Valid() && start <= |before| && start + |values| + 1 < stop
      requires extended <==> start + |values| > |before|
      requires !extended ==> Contents() == before[..start] + values + before[start + |values|..]
      requires extended ==> Contents() == before[..start] + values
      modifies this
      ensures Valid() && Contents() == AssignedAsWritten(before, start, stop, values)
    {
      AsWrittenUpdated(before, start, stop, values);
      if !extended {
        ghost var c1 := Contents();
        var _ := DelSlice(DbUtils.Slice(Some(start + |values| + 1), Some(stop), None));
        DeleteTail(before, start, stop, values, c1);
      }
    }

    /** The end of the as-written slice assignment when no index is left
        over: the values beyond the `k` written are inserted at `stop`. */
    method PlaceSurplus(ghost before: seq<V>, start: nat, stop: nat, values: seq<V>, k: nat, extended: bool)
      requires var width := if stop > start then stop - start else 0;
               && Valid() && start <= |before| && width <= |values| + 1
               && k == (if width < |values| then width else |values|)
      requires extended <==> start + k > |before|
      requires !extended ==> Contents() == before[..start] + values[..k] + before[start + k..]
      requires extended ==> Contents() == before[..start] + values[..k]
      modifies this
      ensures Valid() && Contents() == AssignedAsWritten(before, start, stop, values)
    {
      ghost var c1 := Contents();
      var rest := values[k..];
      if |rest| > 0 && !extended {
        InsertRun(stop, rest);
        InsertedAsWritten(before, start, stop, values, k, c1, Contents());
      } else if |rest| > 0 {
        // the rows end at `stop`: no shift, only the creations
        assert Opened(rows, stop, |rest|, size);
        FillRun(stop, rest, c1);
        FilledAsWritten(before, start, stop, values, k, c1, Contents());
      } else {
        assert values[..k] == values;
        AsWrittenUpdated(before, start, stop, values);
      }
    }

    /** `manager[s] = values` as written, for a slice whose cleaned start
        does not lie beyond the end: `clean_slice` with `replace_none` and
        step 1 only, then `AssignRange`; a zero step makes `xrange`
        raise. */
    method SetSlice(s: DbUtils.Slice, values: seq<V>) returns (r: Result<(), Error>)
      requires Valid()
      requires s.start.None? || s.start.value < 0 || s.start.value <= |Contents()|
      modifies this
      ensures Valid()
      ensures var c := DbUtils.CleanSlice(s, DbUtils.Given(|old(Contents())|), true, DbUtils.Steps([1]));
              && (c.Failure? || c.value.slice.step == Some(0) ==> r == Failure(ValueError) && Contents() == old(Contents()))
              && (c.Success? && c.value.slice.step == Some(1) ==>
                    && c.value.slice.start.Some? && c.value.slice.stop.Some?
                    && 0 <= c.value.slice.start.value <= |old(Contents())| && 0 <= c.value.slice.stop.value
                    && r == Success(())
                    && Contents() == AssignedAsWritten(old(Contents()), c.value.slice.start.value as nat,
                                                       c.value.slice.stop.value as nat, values))
    {
      var n := Count();
      var cleaned := DbUtils.CleanSlice(s, DbUtils.Deferred(n), true, DbUtils.Steps([1]));
      ghost var given := DbUtils.CleanSlice(s, DbUtils.Given(n), true, DbUtils.Steps([1]));
      assert cleaned.Success? <==> given.Success?;
      if cleaned.Failure? || cleaned.value.slice.step == Some(0) {
        return Failure(ValueError);
      }
      assert cleaned.value.slice == given.value.slice;
      DbUtils.CleanSliceBounds(s, DbUtils.Deferred(n), true, DbUtils.Steps([1]));
      AssignRange(cleaned.value.slice.start.value, cleaned.value.slice.stop.value, values);
      r := Success(());
    }

    /** Python's `xs[lo:hi] = values` on the rows, for `lo <= hi <= len`:
        the rows of the range are overwritten, surplus values inserted at
        `hi` and surplus rows deleted. */
    method ReplaceRange(lo: nat, hi: nat, values: seq<V>)
      requires Valid() && lo <= hi <= size
      modifies this
      ensures Valid() && Contents() == old(Contents())[..lo] + values + old(Contents())[hi..]
    {
      ghost var before := Contents();
      var width := hi - lo;
      var m := |values|;
      var k := if width < m then width else m;
      var _ := UpdateOrCreate(lo, values[..k]);
      if m > width {
        InsertSurplus(before, lo, hi, values);
      } else if m < width {
        assert values[..k] == values;
        DeleteSurplus(before, lo, hi, values);
      } else {
        assert values[..k] == values;
      }
    }

    /** The values beyond the range, inserted at its end. */
    method InsertSurplus(ghost before: seq<V>, lo: nat, hi: nat, values: seq<V>)
      requires Valid() && lo <= hi <= |before| && hi - lo < |values|
      requires Contents() == before[..lo] + values[..hi - lo] + before[hi..]
      modifies this
      ensures Valid() && Contents() == before[..lo] + values + before[hi..]
    {
      ghost var c1 := Contents();
      InsertRun(hi, values[hi - lo..]);
      InsertAfterUpdate(before, lo, hi, values, hi - lo, c1);
    }

    /** The rows of the range beyond the values, deleted. */
    method DeleteSurplus(ghost before: seq<V>, lo: nat, hi: nat, values: seq<V>)
      requires Valid() && lo + |values| < hi <= |before|
      requires Contents() == before[..lo] + values + before[lo + |values|..]
      modifies this
      ensures Valid() && Contents() == before[..lo] + values + before[hi..]
    {
      ghost var c1 := Contents();
      DeleteRange(lo + |values|, hi, Some(hi));
      DeleteAfterUpdate(before, lo, hi, values, c1);
    }

    /** `manager[s] = values` with Python's meaning: the rows from `start`
        to `stop` are replaced by the values. */
    method SetSliceCorrected(s: DbUtils.Slice, values: seq<V>) returns (r: Result<(), Error>)
      requires Valid()
      modifies this
      ensures Valid()
      ensures var c := DbUtils.CleanSlice(s, DbUtils.Given(|old(Contents())|), true, DbUtils.Steps([1]));
              && (c.Failure? || c.value.slice.step == Some(0) ==> r == Failure(ValueError) && Contents() == old(Contents()))
              && (c.Success? && c.value.slice.step == Some(1) ==>
                    r == Success(()) && Contents() == PyAssign(old(Contents()), s.start, s.stop, values))
    {
      ghost var before := Contents();
      var n := Count();
      var cleaned := DbUtils.CleanSlice(s, DbUtils.Deferred(n), true, DbUtils.Steps([1]));
      ghost var given := DbUtils.CleanSlice(s, DbUtils.Given(n), true, DbUtils.Steps([1]));
      assert cleaned.Success? <==> given.Success?;
      if cleaned.Failure? || cleaned.value.slice.step == Some(0) {
        return Failure(ValueError);
      }
      PythonByBounds(before, s, true, DbUtils.Steps([1]), values);
      var (lo, hi) := Bounds(cleaned.value.slice, n);
      ReplaceRange(lo, hi, values);
      r := Success(());
    }

    /** `manager.insert(index, value)`: `manager[index:index] = [value]`,
        for an index that does not lie beyond the end. With no index to
        pair, the as-written assignment inserts the value at `index`. */
    method Insert(index: int, v: V)
      requires Valid()
      requires index < 0 || index <= |Contents()|
      modifies this
      ensures Valid()
      ensures var i := DbUtils.PyBound(Some(index), |old(Contents())|, 0);
              Contents() == old(Contents())[..i] + [v] + old(Contents())[i..]
    {
      ghost var before := Contents();
      var s := DbUtils.Slice(Some(index), Some(index), None);
      DbUtils.CleanSliceBounds(s, DbUtils.Given(|before|), true, DbUtils.Steps([1]));
      var _ := SetSlice(s, [v]);
    }

    /** `manager.sort(key=key)`: the values sorted, written back at
        indices `0 .. len - 1`. */
    method Sort(key: V -> int)
      requires Valid()
      modifies this
      ensures Valid() && Contents() == SortByKey(old(Contents()), key)
    {
      var values := SortByKey(Contents(), key);
      ghost var n := size;
      SortedLength(Contents(), key);
      var i := 0;
      while i < |values|
        invariant i <= |values| && size == n
        invariant WrittenUpTo(rows, n, values, i)
        decreases |values| - i
      {
        ghost var r0 := rows;
        var _ := UpdateItem(i, values[i]);
        WriteStep(r0, n, values, i);
        i := i + 1;
      }
      WrittenAll(rows, n, values, Contents());
    }

    /** `owner.seq = values` (`ReverseListDescriptor.__set__`): every row
        deleted, then one created per value at its position. */
    method Assign(values: seq<V>)
      modifies this
      ensures Valid() && Contents() == values
    {
      rows := map[];
      size := 0;
      var i := 0;
      assert [] + values[..0] == [];
      while i < |values|
        invariant i <= |values| && size == i
        invariant Holds(rows, size, [] + values[..i])
        decreases |values| - i
      {
        ghost var r0 := rows;
        CreateItem(i, values[i]);
        AppendStep(r0, i, [], values, i);
        size := size + 1;
        i := i + 1;
      }
      assert [] + values[..i] == values;
      HoldsContents(rows, size, values, Contents());
    }
  }

  /** Without surplus values the slice assignment as written leaves the
      values written from `start` and, unless they reached the end, the
      old rows after them up to the first deleted one. */
  lemma AsWrittenUpdated<V>(before: seq<V>, start: nat, stop: nat, values: seq<V>)
    requires start <= |before| && |values| <= (if stop > start then stop - start else 0)
    ensures start + |values| > |before| ==> AssignedAsWritten(before, start, stop, values) == before[..start] + values
    ensures start + |values| <= |before| && |values| + 1 >= stop - start ==>
              AssignedAsWritten(before, start, stop, values) == before[..start] + values + before[start + |values|..]
  {
  }

  /** What `PlaceSurplus` leaves when the surplus values go in at `stop`
      among existing rows. */
  lemma InsertedAsWritten<V>(before: seq<V>, start: nat, stop: nat, values: seq<V>, k: nat, c1: seq<V>, c2: seq<V>)
    requires var width := if stop > start then stop - start else 0;
             && start <= |before| && width <= |values| + 1
             && k == (if width < |values| then width else |values|)
             && start + k <= |before| && k < |values|
    requires c1 == before[..start] + values[..k] + before[start + k..]
    requires stop <= |c1| && c2 == c1[..stop] + values[k..] + c1[stop..]
    ensures c2 == AssignedAsWritten(before, start, stop, values)
  {
    AsWrittenInsert(before, start, stop, values);
  }

  /** What `PlaceSurplus` leaves when the rows were extended up to `stop`
      and the surplus values are appended. */
  lemma FilledAsWritten<V>(before: seq<V>, start: nat, stop: nat, values: seq<V>, k: nat, c1: seq<V>, c2: seq<V>)
    requires var width := if stop > start then stop - start else 0;
             && start <= |before| && width <= |values| + 1
             && k == (if width < |values| then width else |values|)
             && start + k > |before| && k < |values|
    requires c1 == before[..start] + values[..k]
    requires stop <= |c1| && c2 == c1[..stop] + values[k..] + c1[stop..]
    ensures c2 == AssignedAsWritten(before, start, stop, values)
  {
    AsWrittenFill(before, start, stop, values);
  }

  /** Values left over once the rows of `start .. stop - 1` were
      overwritten go in at `stop`; with `stop < start` that is before the
      start. */
  lemma AsWrittenInsert<V>(before: seq<V>, start: nat, stop: nat, values: seq<V>)
    requires var width := if stop > start then stop - start else 0;
             start + width <= |before| && width < |values|
    ensures var width := if stop > start then stop - start else 0;
            var c := before[..start] + values[..width] + before[start + width..];
            c[..stop] + values[width..] + c[stop..] == AssignedAsWritten(before, start, stop, values)
  {
    var width := if stop > start then stop - start else 0;
    var c := before[..start] + values[..width] + before[start + width..];
    assert values[..width] + values[width..] == values;
    if stop >= start {
      assert c[..stop] == before[..start] + values[..width];
      assert c[stop..] == before[stop..];
    } else {
      assert c == before;
    }
  }

  /** Values left over once the rows were used up are created after them. */
  lemma AsWrittenFill<V>(before: seq<V>, start: nat, stop: nat, values: seq<V>)
    requires start <= |before| && start < stop && stop - start < |values| && stop > |before|
    ensures var c := before[..start] + values[..stop - start];
            c[..stop] + values[stop - start..] + c[stop..] == AssignedAsWritten(before, start, stop, values)
  {
    var c := before[..start] + values[..stop - start];
    assert c[..stop] == c && c[stop..] == [];
    assert values[..stop - start] + values[stop - start..] == values;
  }

  /** The deletion the as-written slice assignment makes with surplus
      indices, `del self[start + len(values) + 1 : stop]`, leaves what
      `AssignedAsWritten` says. */
  lemma DeleteTail<V>(before: seq<V>, start: nat, stop: nat, values: seq<V>, mid: seq<V>)
    requires start + |values| <= |before| && start + |values| + 1 < stop
    requires mid == before[..start] + values + before[start + |values|..]
    ensures PyDelete(mid, Some(start + |values| + 1), Some(stop)) == AssignedAsWritten(before, start, stop, values)
  {
  }

  /** The rows below `n` holding `v`. */
  ghost function Matching<V>(rows: map<nat, V>, n: nat, v: V): set<nat>
  {
    set k | k in rows && k < n && rows[k] == v
  }

  /** The rows holding `v` are as many as its occurrences in the list. */
  lemma {:induction false} CountMatches<V>(rows: map<nat, V>, n: nat, v: V)
    requires forall k: nat :: k < n ==> k in rows
    ensures |Matching(rows, n, v)| == multiset(ListOf(rows, n))[v]
  {
    if n > 0 {
      var m: nat := n - 1;
      CountMatches(rows, m, v);
      var below := Matching(rows, m, v);
      var all := Matching(rows, n, v);
      var xs := ListOf(rows, m);
      assert ListOf(rows, n) == xs + [rows[m]];
      assert multiset(ListOf(rows, n)) == multiset(xs) + multiset{rows[m]};
      assert m !in below;
      if rows[m] == v {
        assert all == below + {m};
      } else {
        assert all == below;
      }
    }
  }
}
