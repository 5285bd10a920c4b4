/** `force_iter` and `in_chunks_of` of `shrubbery.utils`. */
module Utils {
  import opened Wrappers

  datatype Error = ValueError | ZeroDivisionError

  // ---------------------------------------------------------------------
  // force_iter
  // ---------------------------------------------------------------------

  /** The three kinds of argument `force_iter` tells apart: a string, an
      iterable with its items, and anything else. */
  datatype Value<A> = Str(s: string) | Iterable(items: seq<Value<A>>) | Atom(a: A)

  /** `force_iter(x)`: a string counts as one item, an iterable gives its
      items, anything else is one item. */
  function ForceIter<A>(x: Value<A>): (r: seq<Value<A>>)
    ensures !x.Iterable? ==> r == [x]
    ensures x.Iterable? ==> r == x.items
  {
    match x
    case Str(_) => [x]
    case Iterable(items) => items
    case Atom(_) => [x]
  }

  /** Forcing the items of a forced value again changes nothing. */
  lemma ForceIterIdempotent<A>(x: Value<A>)
    ensures ForceIter(Iterable(ForceIter(x))) == ForceIter(x)
  {
  }

  // ---------------------------------------------------------------------
  // in_chunks_of
  // ---------------------------------------------------------------------

  /** The chunks `data[offset:min(len(data), offset + n)]` for `offset` in
      `xrange(offset, len(data), n)`. */
  function ChunksFrom<X>(xs: seq<X>, n: nat, offset: nat): seq<seq<X>>
    requires n > 0
    decreases |xs| - offset
  {
    if offset >= |xs| then []
    else [xs[offset..if offset + n < |xs| then offset + n else |xs|]] + ChunksFrom(xs, n, offset + n)
  }

  /** The items `data[offset], data[offset + num], ...` of one transposed
      group. */
  function Stride<X>(xs: seq<X>, offset: nat, step: nat): seq<X>
    requires step > 0
    decreases |xs| - offset
  {
    if offset >= |xs| then [] else [xs[offset]] + Stride(xs, offset + step, step)
  }

  /** The `num = len(data) / n` transposed groups. */
  function Groups<X>(xs: seq<X>, num: nat): (r: seq<seq<X>>)
    ensures |r| == num
  {
    seq(num, j requires 0 <= j < num => Stride(xs, j, num))
  }

  /** `num = len(data) / n`, Python 2's floor division. */
  function GroupCount(len: nat, n: nat): nat
    requires n > 0
  {
    len / n
  }

  /** `list(in_chunks_of(n, xs, transpose))` with each chunk listed. A zero
      `n` fails when iteration starts: `xrange` refuses a zero step, and
      the transposed form divides by `n`. A negative `n` gives no chunk. */
  function InChunksOf<X>(n: int, xs: seq<X>, transpose: bool): (r: Result<seq<seq<X>>, Error>)
    ensures r.Failure? <==> n == 0
    ensures n < 0 ==> r == Success([])
    ensures n > 0 && !transpose ==> r == Success(ChunksFrom(xs, n, 0))
    ensures n > 0 && transpose ==> r == Success(Groups(xs, GroupCount(|xs|, n)))
  {
    if n == 0 then Failure(if transpose then ZeroDivisionError else ValueError)
    else if n < 0 then Success([])
    else if transpose then Success(Groups(xs, GroupCount(|xs|, n)))
    else Success(ChunksFrom(xs, n, 0))
  }

  function Flatten<X>(xss: seq<seq<X>>): seq<X>
  {
    if |xss| == 0 then [] else xss[0] + Flatten(xss[1..])
  }

  /** The chunks concatenate back to the data. */
  lemma {:induction false} ChunksConcat<X>(xs: seq<X>, n: nat, offset: nat)
    requires n > 0 && offset <= |xs|
    ensures Flatten(ChunksFrom(xs, n, offset)) == xs[offset..]
    decreases |xs| - offset
  {
    if offset < |xs| {
      var cs := ChunksFrom(xs, n, offset);
      if offset + n < |xs| {
        ChunksConcat(xs, n, offset + n);
        assert cs[1..] == ChunksFrom(xs, n, offset + n);
        assert xs[offset..] == xs[offset..offset + n] + xs[offset + n..];
      } else {
        assert ChunksFrom(xs, n, offset + n) == [];
        assert cs[1..] == [];
      }
    }
  }

  /** Chunk `i` is non-empty and holds at most `n` items, exactly `n`
      unless it is the last. */
  predicate ChunkFits<X>(cs: seq<seq<X>>, i: nat, n: nat)
    requires i < |cs|
  {
    0 < |cs[i]| <= n && (i < |cs| - 1 ==> |cs[i]| == n)
  }

  /** Every chunk is non-empty and holds `n` items, except that the last
      may hold fewer. */
  lemma {:induction false} ChunkSizes<X>(xs: seq<X>, n: nat, offset: nat)
    requires n > 0
    ensures forall i :: 0 <= i < |ChunksFrom(xs, n, offset)| ==> ChunkFits(ChunksFrom(xs, n, offset), i, n)
    decreases |xs| - offset
  {
    if offset < |xs| {
      ChunkSizes(xs, n, offset + n);
      var cs := ChunksFrom(xs, n, offset);
      assert cs[1..] == ChunksFrom(xs, n, offset + n);
      if offset + n >= |xs| {
        assert ChunksFrom(xs, n, offset + n) == [];
      }
      var rest := ChunksFrom(xs, n, offset + n);
      assert |cs| == |rest| + 1;
      forall i | 0 <= i < |cs| ensures ChunkFits(cs, i, n) {
        if i > 0 {
          assert ChunkFits(rest, i - 1, n);
          assert cs[i] == rest[i - 1];
        } else {
          assert cs[0] == xs[offset..if offset + n < |xs| then offset + n else |xs|];
        }
      }
    }
  }

  /** There are `ceil(len / n)` chunks: `n` times one chunk fewer does not
      reach the data's length and `n` times their number does. */
  lemma {:induction false} ChunkCount<X>(xs: seq<X>, n: nat, offset: nat)
    requires n > 0 && offset <= |xs|
    ensures var c := |ChunksFrom(xs, n, offset)|;
            && (offset == |xs| ==> c == 0)
            && (offset < |xs| ==> (c - 1) * n < |xs| - offset <= c * n)
    decreases |xs| - offset
  {
    if offset < |xs| {
      var c := |ChunksFrom(xs, n, offset)|;
      if offset + n >= |xs| {
        assert ChunksFrom(xs, n, offset + n) == [];
        assert c == 1;
      } else {
        ChunkCount(xs, n, offset + n);
        assert c == |ChunksFrom(xs, n, offset + n)| + 1;
        MulStep(c, n);
        MulStep(c - 1, n);
      }
    }
  }

  lemma MulStep(k: nat, step: nat)
    requires k > 0
    ensures (k - 1) * step + step == k * step
  {
  }

  /** The position `offset + k * step` of item `k` of a group. */
  function Position(offset: nat, k: nat, step: nat): nat
  {
    offset + k * step
  }

  lemma PositionStep(offset: nat, k: nat, step: nat)
    requires k > 0
    ensures Position(offset, k, step) == Position(offset + step, k - 1, step)
  {
    MulStep(k, step);
  }

  /** Item `k` of the group starting at `offset` is the item at
      `offset + k * step`, and the group reaches exactly as far as the
      data. */
  lemma {:induction false} StrideIndex<X>(xs: seq<X>, offset: nat, step: nat, k: nat)
    requires step > 0
    ensures k < |Stride(xs, offset, step)| <==> Position(offset, k, step) < |xs|
    ensures k < |Stride(xs, offset, step)| ==> Stride(xs, offset, step)[k] == xs[Position(offset, k, step)]
    decreases k
  {
    if k > 0 {
      PositionStep(offset, k, step);
      var g := Stride(xs, offset, step);
      if offset < |xs| {
        StrideIndex(xs, offset + step, step, k - 1);
        assert g[1..] == Stride(xs, offset + step, step);
        if k < |g| {
          assert g[k] == g[1..][k - 1];
        }
      } else {
        assert Position(offset, k, step) >= offset;
      }
    }
  }

  /** Group `j` of `gs` holds the items of `xs` at positions
      `j, j + |gs|, j + 2 * |gs|, ...`, and nothing else. */
  ghost predicate Strided<X>(xs: seq<X>, gs: seq<seq<X>>)
  {
    forall j, k :: 0 <= j < |gs| && 0 <= k < |gs[j]| ==>
      Position(j, k, |gs|) < |xs| && gs[j][k] == xs[Position(j, k, |gs|)]
  }

  /** Position `i` of `xs` is item `i / |gs|` of group `i % |gs|`. */
  ghost predicate Covered<X>(xs: seq<X>, gs: seq<seq<X>>)
  {
    |gs| > 0 ==> forall i :: 0 <= i < |xs| ==>
      i / |gs| < |gs[i % |gs|]| && gs[i % |gs|][i / |gs|] == xs[i]
  }

  lemma GroupItems<X>(xs: seq<X>, num: nat)
    ensures Strided(xs, Groups(xs, num))
  {
    var gs := Groups(xs, num);
    forall j, k | 0 <= j < num && 0 <= k < |gs[j]|
      ensures Position(j, k, num) < |xs| && gs[j][k] == xs[Position(j, k, num)]
    {
      StrideIndex(xs, j, num, k);
    }
  }

  /** Position `i` is item `i / num` after offset `i % num`. */
  lemma Split(i: nat, num: nat)
    requires num > 0
    ensures i % num < num && Position(i % num, i / num, num) == i
  {
  }

  lemma GroupsCover<X>(xs: seq<X>, num: nat)
    requires num > 0
    ensures Covered(xs, Groups(xs, num))
  {
    var gs := Groups(xs, num);
    forall i | 0 <= i < |xs|
      ensures i / num < |gs[i % num]| && gs[i % num][i / num] == xs[i]
    {
      var j, k := i % num, i / num;
      Split(i, num);
      StrideIndex(xs, j, num, k);
      assert gs[j] == Stride(xs, j, num);
    }
  }

  /** The transposed groups partition the data: there are `len / n` of
      them, group `j` holds exactly the items at positions
      `j, j + num, j + 2 * num, ...`, and position `i` is item `i / num` of
      group `i % num`. */
  lemma TransposedPartition<X>(xs: seq<X>, n: nat) returns (gs: seq<seq<X>>)
    requires n > 0
    ensures InChunksOf(n, xs, true) == Success(gs)
    ensures |gs| == GroupCount(|xs|, n)
    ensures Strided(xs, gs) && Covered(xs, gs)
  {
    var num := GroupCount(|xs|, n);
    gs := Groups(xs, num);
    GroupItems(xs, num);
    if num > 0 {
      GroupsCover(xs, num);
    }
    assert num == 0 ==> Covered(xs, gs);
  }

  /** With fewer items than `n` the transposed form yields no group. */
  lemma TransposedShort<X>(xs: seq<X>, n: nat)
    requires |xs| < n
    ensures InChunksOf(n, xs, true) == Success([])
  {
  }

  /** `in_chunks_of(2, [1, 2, 3, 4, 5])` gives `[1, 2], [3, 4], [5]`, and
      transposed `[1, 3, 5], [2, 4]`. */
  lemma InChunksOfExample()
    ensures InChunksOf(2, [1, 2, 3, 4, 5], false) == Success([[1, 2], [3, 4], [5]])
    ensures InChunksOf(2, [1, 2, 3, 4, 5], true) == Success([[1, 3, 5], [2, 4]])
  {
    var xs := [1, 2, 3, 4, 5];
    assert |xs| / 2 == 2;
    assert ChunksFrom(xs, 2, 6) == [];
    assert xs[4..5] == [5] && xs[2..4] == [3, 4] && xs[0..2] == [1, 2];
    assert ChunksFrom(xs, 2, 4) == [[5]];
    assert ChunksFrom(xs, 2, 2) == [[3, 4], [5]];
    assert ChunksFrom(xs, 2, 0) == [[1, 2], [3, 4], [5]];
    assert Stride(xs, 6, 2) == [] && Stride(xs, 5, 2) == [];
    assert Stride(xs, 4, 2) == [5];
    assert Stride(xs, 3, 2) == [4];
    assert Stride(xs, 2, 2) == [3, 5];
    assert Stride(xs, 0, 2) == [1, 3, 5];
    assert Stride(xs, 1, 2) == [2, 4];
    assert Groups(xs, 2) == [[1, 3, 5], [2, 4]];
  }
}
