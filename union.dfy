/** `shrubbery.db.union`: a union of querysets of different models, read
    either one queryset after another (with a start/stop window laid over
    the whole chain) or as a k-way merge sorted by a key. A queryset is
    modelled as its model and the rows it yields, in order. */
module Union {
  import opened Wrappers
  import DbUtils

  datatype Error = IndexError | TypeError | ValueError | AssertionError

  // ---------------------------------------------------------------------
  // Sequences of parts and windows over them
  // ---------------------------------------------------------------------

  /** The parts one after another. */
  function Flatten<T>(parts: seq<seq<T>>): (r: seq<T>)
    ensures parts == [] ==> r == []
  {
    if parts == [] then [] else parts[0] + Flatten(parts[1..])
  }

  lemma {:induction false} FlattenLength<T>(parts: seq<seq<T>>)
    ensures |Flatten(parts)| == if parts == [] then 0 else |parts[0]| + |Flatten(parts[1..])|
  {
  }

  /** Flattening distributes over splitting the parts. */
  lemma {:induction false} FlattenAppend<T>(xs: seq<seq<T>>, ys: seq<seq<T>>)
    ensures Flatten(xs + ys) == Flatten(xs) + Flatten(ys)
  {
    if xs == [] {
      assert xs + ys == ys;
    } else {
      assert (xs + ys)[1..] == xs[1..] + ys;
      FlattenAppend(xs[1..], ys);
    }
  }

  lemma FlattenSnoc<T>(parts: seq<seq<T>>, i: nat)
    requires i < |parts|
    ensures Flatten(parts[..i + 1]) == Flatten(parts[..i]) + parts[i]
  {
    assert parts[..i + 1] == parts[..i] + [parts[i]];
    FlattenAppend(parts[..i], [parts[i]]);
    assert Flatten([parts[i]]) == parts[i] + Flatten([parts[i]][1..]);
  }

  function Clamp(x: int, n: nat): (r: nat)
    ensures r <= n
    ensures 0 <= x <= n ==> r == x
  {
    if x < 0 then 0 else if x > n then n else x
  }

  /** A bound moved down by `d`; an absent bound stays absent. */
  function Less(hi: Option<int>, d: int): Option<int>
  {
    if hi.None? then None else Some(hi.value - d)
  }

  /** The elements of `xs` from `lo` up to `hi` (or the end when `hi` is
      absent), bounds taken as offsets clamped to `0 .. |xs|`: what
      slicing a queryset and `itertools.islice` yield for non-negative
      bounds. */
  function Window<T>(xs: seq<T>, lo: int, hi: Option<int>): (r: seq<T>)
    ensures |r| <= |xs|
  {
    xs[Clamp(lo, |xs|)..WindowEnd(lo, hi, |xs|)]
  }

  /** Where a window over `n` elements ends: at the clamped stop, and
      never before the clamped start. */
  function WindowEnd(lo: int, hi: Option<int>, n: nat): (e: nat)
    ensures Clamp(lo, n) <= e <= n
  {
    var b := if hi.None? then n else Clamp(hi.value, n);
    if b < Clamp(lo, n) then Clamp(lo, n) else b
  }

  function Min(x: int, y: int): int
  {
    if x <= y then x else y
  }

  /** A slice of `a + b` is a slice of `a` and then a slice of `b`. */
  lemma SliceAppend<T>(a: seq<T>, b: seq<T>, x: nat, y: nat)
    requires x <= y <= |a| + |b|
    ensures (a + b)[x..y] == a[Min(x, |a|)..Min(y, |a|)] + b[x - Min(x, |a|)..y - Min(y, |a|)]
  {
    var n := |a|;
    if y <= n {
      assert (a + b)[x..y] == a[x..y];
    } else if x >= n {
      assert (a + b)[x..y] == b[x - n..y - n];
    } else {
      SliceAcross(a, b, x, y);
    }
  }

  lemma SliceAcross<T>(a: seq<T>, b: seq<T>, x: nat, y: nat)
    requires x <= |a| <= y <= |a| + |b|
    ensures (a + b)[x..y] == a[x..] + b[..y - |a|]
  {
    var l, r := (a + b)[x..y], a[x..] + b[..y - |a|];
    assert |l| == |r|;
    forall k | 0 <= k < |l|
      ensures l[k] == r[k]
    {
      if k < |a| - x {
        assert l[k] == a[x + k] == r[k];
      } else {
        assert l[k] == b[x + k - |a|] == r[k];
      }
    }
  }

  /** A window over `a + b` is the window over `a` and then the window,
      shifted by `|a|`, over `b`. */
  lemma WindowAppend<T>(a: seq<T>, b: seq<T>, lo: int, hi: Option<int>)
    ensures Window(a + b, lo, hi) == Window(a, lo, hi) + Window(b, lo - |a|, Less(hi, |a|))
  {
    var x, y := Clamp(lo, |a| + |b|), WindowEnd(lo, hi, |a| + |b|);
    assert Window(a + b, lo, hi) == (a + b)[x..y];
    SliceAppend(a, b, x, y);
    WindowFront(a, b, lo, hi, x, y);
    WindowBack(a, b, lo, hi, x, y);
  }

  lemma WindowFront<T>(a: seq<T>, b: seq<T>, lo: int, hi: Option<int>, x: nat, y: nat)
    requires x == Clamp(lo, |a| + |b|) && y == WindowEnd(lo, hi, |a| + |b|)
    ensures Window(a, lo, hi) == a[Min(x, |a|)..Min(y, |a|)]
  {
    WindowBoundsSplit(lo, hi, |a|, |b|);
  }

  lemma WindowBack<T>(a: seq<T>, b: seq<T>, lo: int, hi: Option<int>, x: nat, y: nat)
    requires x == Clamp(lo, |a| + |b|) && y == WindowEnd(lo, hi, |a| + |b|)
    ensures 0 <= x - Min(x, |a|) <= y - Min(y, |a|) <= |b|
    ensures Window(b, lo - |a|, Less(hi, |a|)) == b[x - Min(x, |a|)..y - Min(y, |a|)]
  {
    WindowBoundsSplit(lo, hi, |a|, |b|);
  }

  /** The bounds of a window over `n + m` elements, split into those over
      the first `n` and those over the last `m`. */
  lemma WindowBoundsSplit(lo: int, hi: Option<int>, n: nat, m: nat)
    ensures Clamp(lo, n) == Min(Clamp(lo, n + m), n)
    ensures WindowEnd(lo, hi, n) == Min(WindowEnd(lo, hi, n + m), n)
    ensures Clamp(lo - n, m) == Clamp(lo, n + m) - Min(Clamp(lo, n + m), n)
    ensures WindowEnd(lo - n, Less(hi, n), m) == WindowEnd(lo, hi, n + m) - Min(WindowEnd(lo, hi, n + m), n)
  {
  }

  /** Truthiness of an optional integer: `None` and `0` are false. */
  predicate Truthy(x: Option<int>)
  {
    x.Some? && x.value != 0
  }

  // ---------------------------------------------------------------------
  // chained_union_generator
  // ---------------------------------------------------------------------

  /** One turn of the generator's loop over a part `p`: it either stops,
      or yields a slice of `p` and moves the offset on. */
  datatype Step<T> = Break | Yield(part: seq<T>, next: int)

  /** The turn of the loop for part `p` at offset `offset`. */
  function PartStep<T>(p: seq<T>, start: Option<int>, stop: Option<int>, offset: int): Step<T>
  {
    var qsStart: Option<int> := if Truthy(start) then Some(if start.value - offset > 0 then start.value - offset else 0) else None;
    var qsStop: Option<int> := if Truthy(stop) then Some(stop.value - offset) else None;
    if Truthy(stop) && (qsStop.value <= 0 || (Truthy(qsStart) && qsStart.value >= qsStop.value)) then Break
    else
      var part := if Truthy(qsStart) || Truthy(qsStop) then Window(p, if qsStart.Some? then qsStart.value else 0, qsStop) else p;
      Yield(part, offset + |part| + if Truthy(qsStart) then qsStart.value else 0)
  }

  /** What the generator yields from the parts `ps` on, with `offset` the
      count it has reached. */
  ghost function Chain<T>(ps: seq<seq<T>>, start: Option<int>, stop: Option<int>, offset: int): seq<T>
    decreases |ps|
  {
    if ps == [] then []
    else
      match PartStep(ps[0], start, stop, offset)
      case Break => []
      case Yield(part, next) => part + Chain(ps[1..], start, stop, next)
  }

  /** Once the start no longer reaches past the offset, a part is read from
      its beginning up to what is left of the stop. */
  lemma StepFromStart<T>(p: seq<T>, start: Option<int>, stop: Option<int>, offset: int)
    requires !Truthy(start) || start.value <= offset
    ensures var hi := if Truthy(stop) then stop else None;
      PartStep(p, start, stop, offset)
        == if hi.Some? && hi.value - offset <= 0 then Break
           else Yield(Window(p, 0, Less(hi, offset)), offset + |Window(p, 0, Less(hi, offset))|)
  {
  }

  /** What `chained_union_generator(parts, start, stop)` yields, in closed
      form. The start counts only while the first part is read: a start
      beyond the first part skips that part alone, and the rest of the
      chain is read from its beginning (the offset then stands at `start`,
      not at the first part's length). A zero stop counts as no stop. */
  function ChainedAsWritten<T>(parts: seq<seq<T>>, start: Option<int>, stop: Option<int>): seq<T>
  {
    var lo := if Truthy(start) && start.value > 0 then start.value else 0;
    var hi := if Truthy(stop) then stop else None;
    if parts != [] && lo > |parts[0]| then Window(Flatten(parts[1..]), 0, Less(hi, lo))
    else Window(Flatten(parts), lo, hi)
  }

  /** Once the start no longer reaches past the offset, each part is read
      from its beginning and the generator yields a prefix of the rest. */
  lemma {:induction false} ChainFromStart<T>(ps: seq<seq<T>>, start: Option<int>, stop: Option<int>, offset: int)
    requires !Truthy(start) || start.value <= offset
    ensures Chain(ps, start, stop, offset) == Window(Flatten(ps), 0, Less(if Truthy(stop) then stop else None, offset))
    decreases |ps|
  {
    if ps != [] {
      var turn := PartStep(ps[0], start, stop, offset);
      if turn.Yield? {
        ChainFromStart(ps[1..], start, stop, turn.next);
      }
      FromStartStep(ps, start, stop, offset);
    }
  }

  /** One part of `ChainFromStart`, given the claim for the parts after it. */
  lemma FromStartStep<T>(ps: seq<seq<T>>, start: Option<int>, stop: Option<int>, offset: int)
    requires ps != []
    requires !Truthy(start) || start.value <= offset
    requires PartStep(ps[0], start, stop, offset).Yield? ==>
      Chain(ps[1..], start, stop, PartStep(ps[0], start, stop, offset).next)
        == Window(Flatten(ps[1..]), 0, Less(if Truthy(stop) then stop else None, PartStep(ps[0], start, stop, offset).next))
    ensures Chain(ps, start, stop, offset) == Window(Flatten(ps), 0, Less(if Truthy(stop) then stop else None, offset))
  {
    var hi := if Truthy(stop) then stop else None;
    StepFromStart(ps[0], start, stop, offset);
    if hi.Some? && hi.value - offset <= 0 {
      assert Chain(ps, start, stop, offset) == [];
    } else {
      PrefixAppend(ps[0], Flatten(ps[1..]), hi, offset);
    }
  }

  /** The prefix step behind `ChainFromStart`: what is left of the stop
      after one part is read from its beginning. */
  lemma PrefixAppend<T>(p: seq<T>, rest: seq<T>, hi: Option<int>, offset: int)
    ensures var part := Window(p, 0, Less(hi, offset));
      Window(p + rest, 0, Less(hi, offset)) == part + Window(rest, 0, Less(hi, offset + |part|))
  {
    var h := Less(hi, offset);
    var part := Window(p, 0, h);
    WindowAppend(p, rest, 0, h);
    if hi.Some? && |part| < |p| {
      assert Window(rest, -|p|, Less(h, |p|)) == [];
      assert Window(rest, 0, Less(hi, offset + |part|)) == [];
    } else {
      assert Less(h, |p|) == Less(hi, offset + |part|);
    }
  }

  /** The first turn of the loop, with the offset still at zero. */
  lemma FirstStep<T>(p: seq<T>, start: Option<int>, stop: Option<int>)
    ensures var lo := if Truthy(start) && start.value > 0 then start.value else 0;
      var hi := if Truthy(stop) then stop else None;
      PartStep(p, start, stop, 0)
        == if hi.Some? && (hi.value <= 0 || (lo > 0 && lo >= hi.value)) then Break
           else Yield(Window(p, lo, hi), |Window(p, lo, hi)| + lo)
  {
  }

  /** A window starting inside the first part, split after that part. */
  lemma FirstAppend<T>(p: seq<T>, rest: seq<T>, lo: int, hi: Option<int>)
    requires 0 <= lo <= |p|
    requires hi.None? || hi.value > lo
    ensures Window(p + rest, lo, hi) == Window(p, lo, hi) + Window(rest, 0, Less(hi, |Window(p, lo, hi)| + lo))
  {
    WindowAppend(p, rest, lo, hi);
    var part := Window(p, lo, hi);
    if hi.Some? && hi.value < |p| {
      assert |part| + lo == hi.value;
    } else {
      assert |part| + lo == |p|;
    }
  }

  /** The generator from the first part on is the closed form. */
  lemma ChainIsAsWritten<T>(parts: seq<seq<T>>, start: Option<int>, stop: Option<int>)
    ensures Chain(parts, start, stop, 0) == ChainedAsWritten(parts, start, stop)
  {
    if parts != [] {
      var lo := if Truthy(start) && start.value > 0 then start.value else 0;
      var hi := if Truthy(stop) then stop else None;
      FirstStep(parts[0], start, stop);
      if hi.Some? && (hi.value <= 0 || (lo > 0 && lo >= hi.value)) {
        assert Chain(parts, start, stop, 0) == [];
      } else {
        ChainYields(parts, start, stop, lo, hi);
      }
    }
  }

  /** After a first turn that yields, the rest of the chain is read from
      its beginning. */
  lemma ChainAfterFirst<T>(parts: seq<seq<T>>, start: Option<int>, stop: Option<int>, part: seq<T>, next: int)
    requires parts != []
    requires PartStep(parts[0], start, stop, 0) == Yield(part, next)
    requires !Truthy(start) || start.value <= next
    ensures Chain(parts, start, stop, 0) == part + Window(Flatten(parts[1..]), 0, Less(if Truthy(stop) then stop else None, next))
  {
    assert Chain(parts, start, stop, 0) == part + Chain(parts[1..], start, stop, next);
    ChainFromStart(parts[1..], start, stop, next);
  }

  /** The case of `ChainIsAsWritten` where the first part is read. */
  lemma ChainYields<T>(parts: seq<seq<T>>, start: Option<int>, stop: Option<int>, lo: int, hi: Option<int>)
    requires parts != []
    requires lo == if Truthy(start) && start.value > 0 then start.value else 0
    requires hi == if Truthy(stop) then stop else None
    requires PartStep(parts[0], start, stop, 0) == Yield(Window(parts[0], lo, hi), |Window(parts[0], lo, hi)| + lo)
    requires hi.None? || hi.value > lo
    ensures Chain(parts, start, stop, 0) == ChainedAsWritten(parts, start, stop)
  {
    var part := Window(parts[0], lo, hi);
    ChainAfterFirst(parts, start, stop, part, |part| + lo);
    if lo <= |parts[0]| {
      YieldsInside(parts, start, stop, lo, hi);
    } else {
      YieldsPast(parts, start, stop, lo, hi);
    }
  }

  /** `ChainYields` when the start falls inside the first part. */
  lemma YieldsInside<T>(parts: seq<seq<T>>, start: Option<int>, stop: Option<int>, lo: int, hi: Option<int>)
    requires parts != []
    requires lo == if Truthy(start) && start.value > 0 then start.value else 0
    requires hi == if Truthy(stop) then stop else None
    requires hi.None? || hi.value > lo
    requires lo <= |parts[0]|
    ensures ChainedAsWritten(parts, start, stop)
      == Window(parts[0], lo, hi) + Window(Flatten(parts[1..]), 0, Less(hi, |Window(parts[0], lo, hi)| + lo))
  {
    assert Flatten(parts) == parts[0] + Flatten(parts[1..]);
    FirstAppend(parts[0], Flatten(parts[1..]), lo, hi);
  }

  /** `ChainYields` when the start falls past the first part. */
  lemma YieldsPast<T>(parts: seq<seq<T>>, start: Option<int>, stop: Option<int>, lo: int, hi: Option<int>)
    requires parts != []
    requires lo == if Truthy(start) && start.value > 0 then start.value else 0
    requires hi == if Truthy(stop) then stop else None
    requires lo > |parts[0]|
    ensures ChainedAsWritten(parts, start, stop)
      == Window(parts[0], lo, hi) + Window(Flatten(parts[1..]), 0, Less(hi, |Window(parts[0], lo, hi)| + lo))
  {
    assert Window(parts[0], lo, hi) == [];
  }


  /** `chained_union_generator` as written: the loop over the parts with
      its running offset, slicing each part by what is left of the
      window. */
  method ChainedUnion<T>(parts: seq<seq<T>>, start: Option<int>, stop: Option<int>) returns (out: seq<T>)
    ensures out == ChainedAsWritten(parts, start, stop)
  {
    out := [];
    var offset: int := 0;
    var i := 0;
    while i < |parts|
      invariant i <= |parts|
      invariant out + Chain(parts[i..], start, stop, offset) == Chain(parts, start, stop, 0)
    {
      var turn := PartStep(parts[i], start, stop, offset);
      if turn.Break? {
        ChainBreak(parts, i, start, stop, offset, out);
        ChainIsAsWritten(parts, start, stop);
        return;
      }
      ChainAdvance(parts, i, start, stop, offset, out);
      out := out + turn.part;
      offset := turn.next;
      i := i + 1;
    }
    ChainEnd(parts, start, stop, offset, out);
    ChainIsAsWritten(parts, start, stop);
  }

  /** A turn that yields carries the loop on to the next part. */
  lemma ChainAdvance<T>(parts: seq<seq<T>>, i: nat, start: Option<int>, stop: Option<int>, offset: int, out: seq<T>)
    requires i < |parts|
    requires out + Chain(parts[i..], start, stop, offset) == Chain(parts, start, stop, 0)
    requires PartStep(parts[i], start, stop, offset).Yield?
    ensures out + PartStep(parts[i], start, stop, offset).part
              + Chain(parts[i + 1..], start, stop, PartStep(parts[i], start, stop, offset).next)
            == Chain(parts, start, stop, 0)
  {
    assert parts[i..][1..] == parts[i + 1..];
    ChainUnfold(parts[i..], start, stop, offset);
  }

  /** A turn that stops ends the chain. */
  lemma ChainBreak<T>(parts: seq<seq<T>>, i: nat, start: Option<int>, stop: Option<int>, offset: int, out: seq<T>)
    requires i < |parts|
    requires out + Chain(parts[i..], start, stop, offset) == Chain(parts, start, stop, 0)
    requires PartStep(parts[i], start, stop, offset).Break?
    ensures out == Chain(parts, start, stop, 0)
  {
    ChainUnfold(parts[i..], start, stop, offset);
  }

  /** Once every part is read, nothing is left of the chain. */
  lemma ChainEnd<T>(parts: seq<seq<T>>, start: Option<int>, stop: Option<int>, offset: int, out: seq<T>)
    requires out + Chain(parts[|parts|..], start, stop, offset) == Chain(parts, start, stop, 0)
    ensures out == Chain(parts, start, stop, 0)
  {
    assert parts[|parts|..] == [];
  }

  /** One turn of `Chain`. */
  lemma ChainUnfold<T>(ps: seq<seq<T>>, start: Option<int>, stop: Option<int>, offset: int)
    requires ps != []
    ensures Chain(ps, start, stop, offset)
      == match PartStep(ps[0], start, stop, offset)
         case Break => []
         case Yield(part, next) => part + Chain(ps[1..], start, stop, next)
  {
  }

  /** The window over the whole chain that the generator is meant to
      yield: an absent or negative start is the beginning, an absent stop
      is the end, and a zero stop yields nothing. */
  function ChainedIntended<T>(parts: seq<seq<T>>, start: Option<int>, stop: Option<int>): seq<T>
  {
    Window(Flatten(parts), if start.Some? then start.value else 0, stop)
  }

  /** The generator with the offset advanced by each part's own length
      and the bounds compared with `None` rather than for truthiness. */
  method ChainedUnionCorrected<T>(parts: seq<seq<T>>, start: Option<int>, stop: Option<int>) returns (out: seq<T>)
    ensures out == ChainedIntended(parts, start, stop)
  {
    var lo := if start.Some? then start.value else 0;
    out := [];
    var offset := 0;
    var i := 0;
    while i < |parts|
      invariant i <= |parts|
      invariant offset == |Flatten(parts[..i])|
      invariant out == Window(Flatten(parts[..i]), lo, stop)
    {
      if stop.Some? && stop.value - offset <= 0 {
        break;
      }
      CorrectedStep(parts, i, lo, stop, offset, out);
      out := out + Window(parts[i], lo - offset, Less(stop, offset));
      offset := offset + |parts[i]|;
      i := i + 1;
    }
    CorrectedRest(parts, i, start, stop, out);
  }

  /** One part more in the corrected loop. */
  lemma CorrectedStep<T>(parts: seq<seq<T>>, i: nat, lo: int, stop: Option<int>, offset: int, out: seq<T>)
    requires i < |parts|
    requires offset == |Flatten(parts[..i])|
    requires out == Window(Flatten(parts[..i]), lo, stop)
    ensures offset + |parts[i]| == |Flatten(parts[..i + 1])|
    ensures out + Window(parts[i], lo - offset, Less(stop, offset)) == Window(Flatten(parts[..i + 1]), lo, stop)
  {
    FlattenSnoc(parts, i);
    WindowAppend(Flatten(parts[..i]), parts[i], lo, stop);
  }

  /** The corrected loop may stop once the stop is reached: the parts left
      add nothing to the window. */
  lemma CorrectedRest<T>(parts: seq<seq<T>>, i: nat, start: Option<int>, stop: Option<int>, out: seq<T>)
    requires i <= |parts|
    requires i == |parts| || (stop.Some? && stop.value - |Flatten(parts[..i])| <= 0)
    requires out == Window(Flatten(parts[..i]), if start.Some? then start.value else 0, stop)
    ensures out == ChainedIntended(parts, start, stop)
  {
    var lo := if start.Some? then start.value else 0;
    assert parts == parts[..i] + parts[i..];
    FlattenAppend(parts[..i], parts[i..]);
    WindowAppend(Flatten(parts[..i]), Flatten(parts[i..]), lo, stop);
    if i == |parts| {
      assert parts[i..] == [];
    }
  }

  // ---------------------------------------------------------------------
  // What the chained generator promises
  // ---------------------------------------------------------------------

  /** With no window the chain is the concatenation, in order. */
  lemma NoLimitsIsConcatenation<T>(parts: seq<seq<T>>)
    ensures ChainedAsWritten(parts, None, None) == Flatten(parts)
  {
  }

  /** With only a positive stop the chain is the first `stop` elements of
      the concatenation. */
  lemma StopIsPrefix<T>(parts: seq<seq<T>>, stop: nat)
    requires stop > 0
    ensures ChainedAsWritten(parts, None, Some(stop)) == Flatten(parts)[..if stop < |Flatten(parts)| then stop else |Flatten(parts)|]
  {
  }

  /** A start inside the first part, and a non-zero stop, give the
      intended window. */
  lemma AsWrittenAgrees<T>(parts: seq<seq<T>>, start: Option<int>, stop: Option<int>)
    requires parts == [] || start.None? || start.value <= |parts[0]|
    requires stop.None? || stop.value != 0
    ensures ChainedAsWritten(parts, start, stop) == ChainedIntended(parts, start, stop)
  {
  }

  /** Negative bounds are not counted from the end: in both generators a
      negative start is the beginning and a negative stop yields nothing,
      as `max(start - offset, 0)` and `qs_stop <= 0` make them. */
  lemma NegativeBoundsAtEdges<T>(parts: seq<seq<T>>, start: Option<int>, stop: Option<int>)
    ensures start.Some? && start.value < 0 ==>
      ChainedAsWritten(parts, start, stop) == ChainedAsWritten(parts, None, stop) &&
      ChainedIntended(parts, start, stop) == ChainedIntended(parts, None, stop)
    ensures stop.Some? && stop.value < 0 ==>
      ChainedAsWritten(parts, start, stop) == [] && ChainedIntended(parts, start, stop) == []
  {
  }

  /** A zero start is the same as no start. */
  lemma ZeroStartIsNoStart<T>(parts: seq<seq<T>>, stop: Option<int>)
    ensures ChainedAsWritten(parts, Some(0), stop) == ChainedAsWritten(parts, None, stop)
  {
  }

  /** The slices a union of three one-row parts is read through. */
  lemma ThreeSingleParts<T>(a: T, b: T, c: T)
    ensures ChainedAsWritten([[a], [b], [c]], None, None) == [a, b, c]
    ensures ChainedAsWritten([[a], [b], [c]], Some(1), None) == [b, c]
    ensures ChainedAsWritten([[a], [b], [c]], None, Some(2)) == [a, b]
    ensures ChainedAsWritten([[a], [b], [c]], Some(1), Some(2)) == [b]
  {
    var parts := [[a], [b], [c]];
    assert parts[1..] == [[b], [c]];
    assert parts[1..][1..] == [[c]];
    assert Flatten([[c]]) == [c];
    assert Flatten([[b], [c]]) == [b, c];
    assert Flatten(parts) == [a, b, c];
  }

  /** A start past the first part skips only that part: over three
      one-row parts, `[2:]` yields the last two rows, not the last one. */
  lemma OffsetOvershoot<T>(a: T, b: T, c: T)
    ensures ChainedAsWritten([[a], [b], [c]], Some(2), None) == [b, c]
    ensures ChainedIntended([[a], [b], [c]], Some(2), None) == [c]
  {
    var parts := [[a], [b], [c]];
    assert parts[1..] == [[b], [c]];
    assert parts[1..][1..] == [[c]];
    assert Flatten([[c]]) == [c];
    assert Flatten([[b], [c]]) == [b, c];
    assert Flatten(parts) == [a, b, c];
  }

  /** A zero stop is taken for no stop: `[:0]` yields every row. */
  lemma ZeroStopYieldsAll<T>(a: T)
    ensures ChainedAsWritten([[a]], None, Some(0)) == [a]
    ensures ChainedIntended([[a]], None, Some(0)) == []
  {
    assert Flatten([[a]]) == [a];
  }

  // ---------------------------------------------------------------------
  // sorted_union_generator
  // ---------------------------------------------------------------------

  /** An entry of the list of heads: the key of the next row, the row, and
      the iterator it came from (the part and the position in it). */
  datatype Head<T> = Head(k: int, row: T, part: nat, at: nat)

  /** The heads are kept in ascending key order. */
  predicate SortedHeads<T>(hs: seq<Head<T>>)
  {
    forall a, b :: 0 <= a < b < |hs| ==> hs[a].k <= hs[b].k
  }

  /** `bisect.insort`: `h` goes after every head whose key is not greater. */
  function Insort<T(==)>(hs: seq<Head<T>>, h: Head<T>): (r: seq<Head<T>>)
    ensures |r| == |hs| + 1
    ensures forall a :: 0 <= a < |r| ==> r[a] in hs || r[a] == h
    ensures h in r
  {
    if hs == [] then [h]
    else if h.k < hs[0].k then [h] + hs
    else
      var t := Insort(hs[1..], h);
      [hs[0]] + t
  }

  /** The heads after `bisect.insort` are the old ones and the new one. */
  lemma {:induction false} InsortMultiset<T>(hs: seq<Head<T>>, h: Head<T>)
    ensures multiset(Insort(hs, h)) == multiset(hs) + multiset{h}
  {
    if hs != [] && h.k >= hs[0].k {
      InsortMultiset(hs[1..], h);
      assert Insort(hs, h) == [hs[0]] + Insort(hs[1..], h);
      assert hs == [hs[0]] + hs[1..];
    }
  }

  /** Inserting into sorted heads keeps them sorted. */
  lemma {:induction false} InsortSorted<T>(hs: seq<Head<T>>, h: Head<T>)
    requires SortedHeads(hs)
    ensures SortedHeads(Insort(hs, h))
  {
    if hs != [] && h.k >= hs[0].k {
      var t := Insort(hs[1..], h);
      InsortSorted(hs[1..], h);
      forall b | 0 <= b < |t| ensures hs[0].k <= t[b].k {
        if t[b] != h {
          var i :| 0 <= i < |hs[1..]| && hs[1..][i] == t[b];
          assert hs[i + 1] == t[b];
        }
      }
      ConsSorted(hs[0], t);
    }
  }

  lemma ConsSorted<T>(x: Head<T>, t: seq<Head<T>>)
    requires SortedHeads(t)
    requires forall b :: 0 <= b < |t| ==> x.k <= t[b].k
    ensures SortedHeads([x] + t)
  {
    var r := [x] + t;
    forall a, b | 0 <= a < b < |r| ensures r[a].k <= r[b].k {
      assert r[b] == t[b - 1];
      if a > 0 { assert r[a] == t[a - 1]; }
    }
  }

  /** `key` orders `a` before `b`: ascending, or descending when
      `reverse` is set. */
  predicate Before(a: int, b: int, reverse: bool)
  {
    if reverse then a >= b else a <= b
  }

  /** The rows are in `key` order (descending when `reverse` is set). */
  predicate OrderedBy<T>(xs: seq<T>, key: T -> int, reverse: bool)
  {
    forall a, b :: 0 <= a < b < |xs| ==> Before(key(xs[a]), key(xs[b]), reverse)
  }

  /** A row that comes after the last one keeps the rows in order. */
  lemma OrderedSnoc<T>(xs: seq<T>, x: T, key: T -> int, reverse: bool)
    requires OrderedBy(xs, key, reverse)
    requires xs != [] ==> Before(key(xs[|xs| - 1]), key(x), reverse)
    ensures OrderedBy(xs + [x], key, reverse)
  {
    var ys := xs + [x];
    forall a, b | 0 <= a < b < |ys|
      ensures Before(key(ys[a]), key(ys[b]), reverse)
    {
      if b == |xs| && a < |xs| - 1 {
        assert Before(key(xs[a]), key(xs[|xs| - 1]), reverse);
      }
    }
  }

  /** A head stands for the valid next row of its iterator. */
  predicate HeadOk<T(==)>(parts: seq<seq<T>>, key: T -> int, h: Head<T>)
  {
    h.part < |parts| && h.at < |parts[h.part]| && h.row == parts[h.part][h.at] && h.k == key(h.row)
  }

  /** The rows the iterators behind the heads have still to yield, the
      head rows included. */
  ghost function Pending<T>(parts: seq<seq<T>>, hs: seq<Head<T>>): multiset<T>
    requires Within(parts, hs)
  {
    if hs == [] then multiset{}
    else multiset(parts[hs[0].part][hs[0].at..]) + Pending(parts, hs[1..])
  }

  /** Every head points into its part. */
  predicate Within<T>(parts: seq<seq<T>>, hs: seq<Head<T>>)
  {
    forall a :: 0 <= a < |hs| ==> hs[a].part < |parts| && hs[a].at <= |parts[hs[a].part]|
  }

  /** The inserted heads still point into their parts. */
  lemma InsortWithin<T>(parts: seq<seq<T>>, hs: seq<Head<T>>, h: Head<T>)
    requires Within(parts, hs)
    requires h.part < |parts| && h.at <= |parts[h.part]|
    ensures Within(parts, Insort(hs, h))
  {
    var r := Insort(hs, h);
    forall a | 0 <= a < |r| ensures r[a].part < |parts| && r[a].at <= |parts[r[a].part]| {
      assert r[a] in hs || r[a] == h;
    }
  }

  lemma {:induction false} PendingInsort<T>(parts: seq<seq<T>>, hs: seq<Head<T>>, h: Head<T>)
    requires Within(parts, hs)
    requires h.part < |parts| && h.at <= |parts[h.part]|
    ensures Within(parts, Insort(hs, h))
    ensures Pending(parts, Insort(hs, h)) == Pending(parts, hs) + multiset(parts[h.part][h.at..])
  {
    InsortWithin(parts, hs, h);
    if hs != [] && h.k >= hs[0].k {
      var t := Insort(hs[1..], h);
      assert hs == [hs[0]] + hs[1..];
      PendingCons(parts, hs[0], hs[1..]);
      PendingInsort(parts, hs[1..], h);
      assert Insort(hs, h) == [hs[0]] + t;
      PendingCons(parts, hs[0], t);
    } else {
      assert Insort(hs, h) == [h] + hs;
      PendingCons(parts, h, hs);
    }
  }

  lemma PendingCons<T>(parts: seq<seq<T>>, x: Head<T>, t: seq<Head<T>>)
    requires x.part < |parts| && x.at <= |parts[x.part]|
    requires Within(parts, [x] + t)
    ensures Within(parts, t)
    ensures Pending(parts, [x] + t) == multiset(parts[x.part][x.at..]) + Pending(parts, t)
  {
    assert ([x] + t)[1..] == t;
    forall a | 0 <= a < |t| ensures t[a].part < |parts| && t[a].at <= |parts[t[a].part]| {
      assert t[a] == ([x] + t)[a + 1];
    }
  }

  lemma {:induction false} PendingLast<T>(parts: seq<seq<T>>, hs: seq<Head<T>>)
    requires hs != []
    requires Within(parts, hs)
    ensures Pending(parts, hs) == Pending(parts, hs[..|hs| - 1]) + multiset(parts[hs[|hs| - 1].part][hs[|hs| - 1].at..])
  {
    if |hs| > 1 {
      PendingLast(parts, hs[1..]);
      assert hs[1..][..|hs[1..]| - 1] == hs[..|hs| - 1][1..];
    }
  }

  /** A row is taken off the front of a part's remaining rows. */
  lemma TailStep<T>(p: seq<T>, at: nat)
    requires at < |p|
    ensures multiset(p[at..]) == multiset{p[at]} + multiset(p[at + 1..])
  {
    assert p[at..] == [p[at]] + p[at + 1..];
  }

  /** The loop that starts every part: `_next(iter(qs))` for each part in
      turn puts the first row of every non-empty part among the heads. */
  method FirstHeads<T(==)>(parts: seq<seq<T>>, key: T -> int) returns (heads: seq<Head<T>>)
    ensures SortedHeads(heads)
    ensures forall a :: 0 <= a < |heads| ==> HeadOk(parts, key, heads[a])
    ensures Within(parts, heads)
    ensures Pending(parts, heads) == multiset(Flatten(parts))
  {
    heads := [];
    var j := 0;
    while j < |parts|
      invariant j <= |parts|
      invariant SortedHeads(heads)
      invariant forall a :: 0 <= a < |heads| ==> HeadOk(parts, key, heads[a])
      invariant Within(parts, heads)
      invariant Pending(parts, heads) + multiset(Flatten(parts[j..])) == multiset(Flatten(parts))
    {
      assert Flatten(parts[j..]) == parts[j] + Flatten(parts[j + 1..]) by {
        assert parts[j..][1..] == parts[j + 1..];
      }
      heads := Next(parts, key, heads, j, 0);
      j := j + 1;
    }
  }

  /** `_next(it)`: when the iterator of part `p` at position `at` has a
      row left, that row and its key go among the heads. */
  method Next<T(==)>(parts: seq<seq<T>>, key: T -> int, heads: seq<Head<T>>, p: nat, at: nat) returns (r: seq<Head<T>>)
    requires p < |parts| && at <= |parts[p]|
    requires SortedHeads(heads)
    requires forall a :: 0 <= a < |heads| ==> HeadOk(parts, key, heads[a])
    requires Within(parts, heads)
    ensures SortedHeads(r)
    ensures forall a :: 0 <= a < |r| ==> HeadOk(parts, key, r[a])
    ensures Within(parts, r)
    ensures Pending(parts, r) == Pending(parts, heads) + multiset(parts[p][at..])
    ensures forall a :: 0 <= a < |r| ==> r[a] in heads || (r[a].part == p && r[a].at == at)
  {
    if at < |parts[p]| {
      var row := parts[p][at];
      PendingInsort(parts, heads, Head(key(row), row, p, at));
      InsortSorted(heads, Head(key(row), row, p, at));
      r := Insort(heads, Head(key(row), row, p, at));
    } else {
      r := heads;
    }
  }

  /** The head taken next: the first (least key), or with `reverse` the
      last (greatest key); it comes before every head left. */
  method PopHead<T(==)>(parts: seq<seq<T>>, key: T -> int, heads: seq<Head<T>>, reverse: bool) returns (h: Head<T>, rest: seq<Head<T>>)
    requires heads != []
    requires SortedHeads(heads)
    requires forall a :: 0 <= a < |heads| ==> HeadOk(parts, key, heads[a])
    requires Within(parts, heads)
    ensures h == heads[if reverse then |heads| - 1 else 0]
    ensures HeadOk(parts, key, h)
    ensures SortedHeads(rest)
    ensures forall a :: 0 <= a < |rest| ==> HeadOk(parts, key, rest[a])
    ensures Within(parts, rest)
    ensures Pending(parts, heads) == Pending(parts, rest) + multiset(parts[h.part][h.at..])
    ensures forall a :: 0 <= a < |rest| ==> Before(h.k, rest[a].k, reverse)
    ensures |rest| == |heads| - 1
    ensures forall a :: 0 <= a < |rest| ==> rest[a] in heads
  {
    if reverse {
      h := heads[|heads| - 1];
      rest := heads[..|heads| - 1];
      PopLast(parts, key, heads);
    } else {
      h := heads[0];
      rest := heads[1..];
      PopFirst(parts, key, heads);
    }
  }

  /** The last head, the greatest key, comes off the end. */
  lemma PopLast<T>(parts: seq<seq<T>>, key: T -> int, heads: seq<Head<T>>)
    requires heads != []
    requires SortedHeads(heads)
    requires forall a :: 0 <= a < |heads| ==> HeadOk(parts, key, heads[a])
    requires Within(parts, heads)
    ensures var h, rest := heads[|heads| - 1], heads[..|heads| - 1];
      && SortedHeads(rest)
      && (forall a :: 0 <= a < |rest| ==> HeadOk(parts, key, rest[a]))
      && Within(parts, rest)
      && Pending(parts, heads) == Pending(parts, rest) + multiset(parts[h.part][h.at..])
      && (forall a :: 0 <= a < |rest| ==> Before(h.k, rest[a].k, true))
      && (forall a :: 0 <= a < |rest| ==> rest[a] in heads)
  {
    PendingLast(parts, heads);
  }

  /** The first head, the least key, comes off the front. */
  lemma PopFirst<T>(parts: seq<seq<T>>, key: T -> int, heads: seq<Head<T>>)
    requires heads != []
    requires SortedHeads(heads)
    requires forall a :: 0 <= a < |heads| ==> HeadOk(parts, key, heads[a])
    requires Within(parts, heads)
    ensures var h, rest := heads[0], heads[1..];
      && SortedHeads(rest)
      && (forall a :: 0 <= a < |rest| ==> HeadOk(parts, key, rest[a]))
      && Within(parts, rest)
      && Pending(parts, heads) == Pending(parts, rest) + multiset(parts[h.part][h.at..])
      && (forall a :: 0 <= a < |rest| ==> Before(h.k, rest[a].k, false))
      && (forall a :: 0 <= a < |rest| ==> rest[a] in heads)
  {
  }

  /** Every part is in key order. */
  predicate PartsOrdered<T>(parts: seq<seq<T>>, key: T -> int, reverse: bool)
  {
    forall i :: 0 <= i < |parts| ==> OrderedBy(parts[i], key, reverse)
  }

  /** What holds between turns of the merge loop: the heads are sorted and
      each is the next row of its iterator; when the parts are in order,
      so are the rows yielded, and none of them comes after a head. */
  predicate Merging<T(==)>(parts: seq<seq<T>>, key: T -> int, reverse: bool, out: seq<T>, heads: seq<Head<T>>)
  {
    && SortedHeads(heads)
    && (forall a :: 0 <= a < |heads| ==> HeadOk(parts, key, heads[a]))
    && Within(parts, heads)
    && (PartsOrdered(parts, key, reverse) ==> OrderedBy(out, key, reverse))
    && (PartsOrdered(parts, key, reverse) && |out| > 0 ==>
          forall a :: 0 <= a < |heads| ==> Before(key(out[|out| - 1]), heads[a].k, reverse))
  }

  /** `sorted_union_generator`: the first row of every part goes into a
      list of heads kept sorted by key; then, until the list is empty, the
      head with the least key (the greatest with `reverse`) is yielded and
      replaced by the next row of its part. Every row of every part comes
      out once; when every part is in key order, so is the result. */
  method SortedUnion<T(==)>(parts: seq<seq<T>>, key: T -> int, reverse: bool) returns (out: seq<T>)
    ensures multiset(out) == multiset(Flatten(parts))
    ensures PartsOrdered(parts, key, reverse) ==> OrderedBy(out, key, reverse)
  {
    var heads := FirstHeads(parts, key);
    out := [];
    while |heads| > 0
      invariant Merging(parts, key, reverse, out, heads)
      invariant multiset(out) + Pending(parts, heads) == multiset(Flatten(parts))
      decreases |Pending(parts, heads)|
    {
      out, heads := MergeTurn(parts, key, reverse, out, heads);
    }
  }

  /** One turn of the merge loop: yield the head taken next and call
      `_next` on its iterator. */
  method MergeTurn<T(==)>(parts: seq<seq<T>>, key: T -> int, reverse: bool, out: seq<T>, heads: seq<Head<T>>)
      returns (out': seq<T>, heads': seq<Head<T>>)
    requires heads != []
    requires Merging(parts, key, reverse, out, heads)
    ensures Merging(parts, key, reverse, out', heads')
    ensures multiset(out') + Pending(parts, heads') == multiset(out) + Pending(parts, heads)
    ensures |Pending(parts, heads')| < |Pending(parts, heads)|
  {
    var h, rest := PopHead(parts, key, heads, reverse);
    out' := out + [h.row];
    heads' := Next(parts, key, rest, h.part, h.at + 1);
    MergeOrder(parts, key, reverse, out, heads, h, rest, heads');
    MergeCount(parts, h, heads, rest, heads', out);
  }

  /** The merge invariant survives a turn: the row yielded came before
      every head, and the head that replaces it comes after it in its part. */
  lemma MergeOrder<T>(parts: seq<seq<T>>, key: T -> int, reverse: bool, out: seq<T>, heads: seq<Head<T>>,
                          h: Head<T>, rest: seq<Head<T>>, heads': seq<Head<T>>)
    requires heads != []
    requires Merging(parts, key, reverse, out, heads)
    requires h == heads[if reverse then |heads| - 1 else 0]
    requires HeadOk(parts, key, h)
    requires forall a :: 0 <= a < |rest| ==> Before(h.k, rest[a].k, reverse)
    requires SortedHeads(heads')
    requires forall a :: 0 <= a < |heads'| ==> HeadOk(parts, key, heads'[a])
    requires Within(parts, heads')
    requires forall a :: 0 <= a < |heads'| ==> heads'[a] in rest || (heads'[a].part == h.part && heads'[a].at == h.at + 1)
    ensures Merging(parts, key, reverse, out + [h.row], heads')
  {
    if PartsOrdered(parts, key, reverse) {
      OrderedSnoc(out, h.row, key, reverse);
      forall a | 0 <= a < |heads'|
        ensures Before(h.k, heads'[a].k, reverse)
      {
        if heads'[a] !in rest {
          assert OrderedBy(parts[h.part], key, reverse);
          assert h.at < heads'[a].at && heads'[a].row == parts[h.part][heads'[a].at];
        }
      }
      assert (out + [h.row])[|out + [h.row]| - 1] == h.row;
    }
  }

  /** A turn moves one row from the pending rows to the output. */
  lemma MergeCount<T>(parts: seq<seq<T>>, h: Head<T>, heads: seq<Head<T>>, rest: seq<Head<T>>, heads': seq<Head<T>>, out: seq<T>)
    requires h.part < |parts| && h.at < |parts[h.part]| && h.row == parts[h.part][h.at]
    requires Within(parts, heads) && Within(parts, rest) && Within(parts, heads')
    requires Pending(parts, heads) == Pending(parts, rest) + multiset(parts[h.part][h.at..])
    requires Pending(parts, heads') == Pending(parts, rest) + multiset(parts[h.part][h.at + 1..])
    ensures multiset(out + [h.row]) + Pending(parts, heads') == multiset(out) + Pending(parts, heads)
    ensures |Pending(parts, heads')| < |Pending(parts, heads)|
  {
    TailStep(parts[h.part], h.at);
  }

  // ---------------------------------------------------------------------
  // Querysets and their union
  // ---------------------------------------------------------------------

  /** A queryset: its model and the rows it yields. */
  datatype QuerySet<M, T> = QuerySet(model: M, rows: seq<T>)

  /** What `_add_qs` is given: a model class (whose `get_query_set` is all
      rows of the model, and which stands for its direct concrete
      subclasses when abstract) or a queryset. */
  datatype Source<M, T> = ModelClass(tree: DbUtils.ClassTree<M>) | Query(qs: QuerySet<M, T>)

  /** The rows of `xs` not among `seen`, in order. */
  function Unseen<T(==)>(xs: seq<T>, seen: seq<T>): (r: seq<T>)
    ensures forall k :: 0 <= k < |r| ==> r[k] in xs && r[k] !in seen
    ensures forall k :: 0 <= k < |xs| ==> xs[k] in seen || xs[k] in r
  {
    if xs == [] then []
    else
      var t := Unseen(xs[1..], seen);
      var r := (if xs[0] in seen then [] else [xs[0]]) + t;
      assert forall k :: 0 <= k < |t| ==> t[k] in r;
      assert forall k :: 1 <= k < |xs| ==> xs[k] == xs[1..][k - 1];
      r
  }

  /** `qs | model_qs` for two querysets of one model: the rows either of
      them yields, each once, the left operand's first. */
  function Or<M, T(==)>(a: QuerySet<M, T>, b: QuerySet<M, T>): (r: QuerySet<M, T>)
    ensures r.model == a.model
    ensures forall k :: 0 <= k < |r.rows| ==> r.rows[k] in a.rows || r.rows[k] in b.rows
    ensures forall k :: 0 <= k < |a.rows| ==> a.rows[k] in r.rows
    ensures forall k :: 0 <= k < |b.rows| ==> b.rows[k] in r.rows
  {
    QuerySet(a.model, a.rows + Unseen(b.rows, a.rows))
  }

  /** The `models` property: the model of each queryset, in order. */
  function Models<M, T>(qss: seq<QuerySet<M, T>>): (r: seq<M>)
    ensures |r| == |qss|
    ensures forall a :: 0 <= a < |qss| ==> r[a] == qss[a].model
  {
    seq(|qss|, a requires 0 <= a < |qss| => qss[a].model)
  }

  /** The rows of each queryset, in order. */
  function Parts<M, T>(qss: seq<QuerySet<M, T>>): (r: seq<seq<T>>)
    ensures |r| == |qss|
    ensures forall a :: 0 <= a < |qss| ==> r[a] == qss[a].rows
  {
    seq(|qss|, a requires 0 <= a < |qss| => qss[a].rows)
  }

  predicate Distinct<M(==)>(ms: seq<M>)
  {
    forall a, b :: 0 <= a < b < |ms| ==> ms[a] != ms[b]
  }

  /** `querysets_by_model` agrees with `querysets`: one queryset per model,
      and the dictionary maps each model to its queryset and nothing else. */
  ghost predicate Agrees<M, T>(qss: seq<QuerySet<M, T>>, dict: map<M, QuerySet<M, T>>)
  {
    && Distinct(Models(qss))
    && (forall m :: m in dict ==> m in Models(qss))
    && (forall a :: 0 <= a < |qss| ==> qss[a].model in dict && dict[qss[a].model] == qss[a])
  }

  /** `_add_qs` on the list of querysets: a queryset of a model already
      present is merged into that model's queryset in its place; one of a
      new model goes at the end. */
  function Added<M(==), T(==)>(qss: seq<QuerySet<M, T>>, qs: QuerySet<M, T>): (r: seq<QuerySet<M, T>>)
    ensures Models(r) == if qs.model in Models(qss) then Models(qss) else Models(qss) + [qs.model]
    ensures Distinct(Models(qss)) ==> Distinct(Models(r))
    ensures Distinct(Models(qss)) ==> forall a :: 0 <= a < |qss| ==>
      r[a] == if qss[a].model == qs.model then Or(qs, qss[a]) else qss[a]
    ensures qs.model !in Models(qss) ==> r == qss + [qs]
  {
    if qs.model in Models(qss) then
      var j := DbUtils.FirstIndex(Models(qss), qs.model);
      var r := qss[j := Or(qs, qss[j])];
      assert Models(r) == Models(qss);
      r
    else
      var r := qss + [qs];
      assert Models(r) == Models(qss) + [qs.model];
      r
  }

  /** Adding a queryset keeps every model in its place and adds its model. */
  lemma AddedModels<M, T>(qss: seq<QuerySet<M, T>>, qs: QuerySet<M, T>)
    ensures Elems(Models(Added(qss, qs))) == Elems(Models(qss)) + {qs.model}
    ensures |Added(qss, qs)| >= |qss|
    ensures forall a :: 0 <= a < |qss| ==> Added(qss, qs)[a].model == qss[a].model
  {
    var r := Added(qss, qs);
    assert forall a :: 0 <= a < |qss| ==> Models(r)[a] == Models(qss)[a];
  }

  /** One queryset after another is added, left to right. */
  function AddedAll<M(==), T(==)>(qss: seq<QuerySet<M, T>>, more: seq<QuerySet<M, T>>): seq<QuerySet<M, T>>
  {
    if more == [] then qss else Added(AddedAll(qss, more[..|more| - 1]), more[|more| - 1])
  }

  lemma AddedAllStep<M, T>(qss: seq<QuerySet<M, T>>, more: seq<QuerySet<M, T>>, i: nat)
    requires i < |more|
    ensures AddedAll(qss, more[..i + 1]) == Added(AddedAll(qss, more[..i]), more[i])
  {
    assert more[..i + 1][..i] == more[..i];
  }

  /** Some queryset of `qss` yields `x`. */
  ghost predicate HasRow<M, T>(qss: seq<QuerySet<M, T>>, x: T)
  {
    exists a :: 0 <= a < |qss| && x in qss[a].rows
  }

  /** Adding a queryset adds exactly its rows to the union's rows. */
  lemma AddedRows<M, T>(qss: seq<QuerySet<M, T>>, qs: QuerySet<M, T>, x: T)
    requires Distinct(Models(qss))
    ensures HasRow(Added(qss, qs), x) <==> HasRow(qss, x) || x in qs.rows
  {
    if HasRow(Added(qss, qs), x) {
      AddedRowFrom(qss, qs, x);
    }
    if HasRow(qss, x) {
      AddedKeepsRow(qss, qs, x);
    }
    if x in qs.rows {
      AddedHasRow(qss, qs, x);
    }
  }

  lemma AddedRowFrom<M, T>(qss: seq<QuerySet<M, T>>, qs: QuerySet<M, T>, x: T)
    requires Distinct(Models(qss)) && HasRow(Added(qss, qs), x)
    ensures HasRow(qss, x) || x in qs.rows
  {
    var r := Added(qss, qs);
    var a :| 0 <= a < |r| && x in r[a].rows;
    if a < |qss| && qss[a].model == qs.model {
      assert x in qs.rows || x in qss[a].rows;
    } else if a < |qss| {
      assert x in qss[a].rows;
    }
  }

  lemma AddedKeepsRow<M, T>(qss: seq<QuerySet<M, T>>, qs: QuerySet<M, T>, x: T)
    requires Distinct(Models(qss)) && HasRow(qss, x)
    ensures HasRow(Added(qss, qs), x)
  {
    var r := Added(qss, qs);
    var a :| 0 <= a < |qss| && x in qss[a].rows;
    assert x in r[a].rows;
  }

  lemma AddedHasRow<M, T>(qss: seq<QuerySet<M, T>>, qs: QuerySet<M, T>, x: T)
    requires Distinct(Models(qss)) && x in qs.rows
    ensures HasRow(Added(qss, qs), x)
  {
    var r := Added(qss, qs);
    if qs.model in Models(qss) {
      var j :| 0 <= j < |qss| && qss[j].model == qs.model;
      assert x in r[j].rows;
    } else {
      assert r[|qss|] == qs;
    }
  }

  /** `UnionQuerySet(UA, UB, UA.objects.filter(...))`: the repeated model
      is merged at its first place and no third queryset appears. */
  lemma RepeatModelMergedInPlace<M, T>(a: QuerySet<M, T>, b: QuerySet<M, T>, c: QuerySet<M, T>)
    requires a.model != b.model && c.model == a.model
    ensures Added(Added(Added([], a), b), c) == [Or(c, a), b]
  {
    assert Models([a]) == [a.model];
    assert Added([], a) == [a];
    assert Models([a, b]) == [a.model, b.model];
    assert Added([a], b) == [a, b];
    var r := Added([a, b], c);
    assert |r| == 2 && r[0] == Or(c, a) && r[1] == b;
  }

  /** The models a source adds. */
  ghost function SourceModels<M, T>(src: Source<M, T>): set<M>
  {
    match src
    case Query(qs) => {qs.model}
    case ModelClass(tree) =>
      if tree.meta.isAbstract then DbUtils.Collected(tree, ConcreteOnly(), true) else {tree.model}
  }

  ghost function SourcesModels<M, T>(srcs: seq<Source<M, T>>): set<M>
  {
    if srcs == [] then {} else SourcesModels(srcs[..|srcs| - 1]) + SourceModels(srcs[|srcs| - 1])
  }

  lemma SourcesModelsStep<M, T>(srcs: seq<Source<M, T>>, i: nat)
    requires i < |srcs|
    ensures SourcesModels(srcs[..i + 1]) == SourcesModels(srcs[..i]) + SourceModels(srcs[i])
    ensures srcs[..i + 1] == srcs[..i] + [srcs[i]]
  {
    assert srcs[..i + 1][..i] == srcs[..i];
  }

  /** `get_sub_models` with its defaults: no abstract, proxy or virtual
      subclasses. */
  function ConcreteOnly(): DbUtils.Filter
  {
    DbUtils.Filter(false, false, false)
  }

  function Elems<M>(ms: seq<M>): set<M>
  {
    set m | m in ms
  }

  /** A model class whose `_meta.abstract` is set. */
  predicate IsAbstractClass<M, T>(src: Source<M, T>)
  {
    src.ModelClass? && src.tree.meta.isAbstract
  }

  /** The queryset `get_query_set(src)` gives for a source that is not an
      abstract model class: the queryset itself, or all rows of the model. */
  function SourceQuerySet<M, T>(src: Source<M, T>, db: M -> seq<T>): (r: QuerySet<M, T>)
    ensures src.Query? ==> r == src.qs
    ensures src.ModelClass? ==> r.model == src.tree.model && r.rows == db(src.tree.model)
  {
    match src
    case Query(qs) => qs
    case ModelClass(tree) => QuerySet(tree.model, db(tree.model))
  }

  function SourceQuerySets<M, T>(srcs: seq<Source<M, T>>, db: M -> seq<T>): (r: seq<QuerySet<M, T>>)
    ensures |r| == |srcs|
    ensures forall i :: 0 <= i < |srcs| ==> r[i] == SourceQuerySet(srcs[i], db)
  {
    seq(|srcs|, i requires 0 <= i < |srcs| => SourceQuerySet(srcs[i], db))
  }

  /** The queryset of all rows of each model of `ms`, in order. */
  function ModelQuerySets<M, T>(ms: seq<M>, db: M -> seq<T>): (r: seq<QuerySet<M, T>>)
    ensures |r| == |ms|
    ensures forall i :: 0 <= i < |ms| ==> r[i] == QuerySet(ms[i], db(ms[i]))
  {
    seq(|ms|, i requires 0 <= i < |ms| => QuerySet(ms[i], db(ms[i])))
  }

  /** Some model of `ms` has the row `x`. */
  ghost predicate YieldsAny<M, T>(ms: set<M>, db: M -> seq<T>, x: T)
  {
    exists m :: m in ms && x in db(m)
  }

  /** The rows a source stands for: those of the queryset, of the model, or
      of the direct concrete subclasses of an abstract model. */
  ghost predicate SourceYields<M, T>(src: Source<M, T>, db: M -> seq<T>, x: T)
  {
    if IsAbstractClass(src) then YieldsAny(DbUtils.Collected(src.tree, ConcreteOnly(), true), db, x)
    else x in SourceQuerySet(src, db).rows
  }

  /** `qss` has the row `x` exactly when a source of `srcs` stands for
      it. */
  ghost predicate RowsFrom<M, T>(qss: seq<QuerySet<M, T>>, srcs: seq<Source<M, T>>, db: M -> seq<T>, x: T)
  {
    HasRow(qss, x) <==> exists j :: 0 <= j < |srcs| && SourceYields(srcs[j], db, x)
  }

  /** Adding one more source adds the rows it stands for. */
  lemma RowsFromStep<M, T>(before: seq<QuerySet<M, T>>, qss: seq<QuerySet<M, T>>, pre: seq<Source<M, T>>,
                           src: Source<M, T>, db: M -> seq<T>)
    requires forall x :: RowsFrom(before, pre, db, x)
    requires forall x :: HasRow(qss, x) <==> HasRow(before, x) || SourceYields(src, db, x)
    ensures forall x :: RowsFrom(qss, pre + [src], db, x)
  {
    var p := pre + [src];
    forall x ensures RowsFrom(qss, p, db, x) {
      assert RowsFrom(before, pre, db, x);
      if HasRow(before, x) {
        var j :| 0 <= j < |pre| && SourceYields(pre[j], db, x);
        assert p[j] == pre[j];
      }
      if SourceYields(src, db, x) {
        assert p[|pre|] == src;
      }
      if exists j :: 0 <= j < |p| && SourceYields(p[j], db, x) {
        var j :| 0 <= j < |p| && SourceYields(p[j], db, x);
        if j < |pre| {
          assert p[j] == pre[j];
        }
      }
    }
  }

  /** One more model's queryset at the end of the ones added. */
  lemma ModelQuerySetsSnoc<M, T>(base: seq<QuerySet<M, T>>, ms: seq<M>, m: M, db: M -> seq<T>)
    ensures AddedAll(base, ModelQuerySets(ms + [m], db)) == Added(AddedAll(base, ModelQuerySets(ms, db)), QuerySet(m, db(m)))
  {
    var more := ModelQuerySets(ms + [m], db);
    assert more[..|more| - 1] == ModelQuerySets(ms, db);
  }

  /** Adding querysets one after another keeps one queryset per model. */
  lemma {:induction false} AddedAllDistinct<M, T>(qss: seq<QuerySet<M, T>>, more: seq<QuerySet<M, T>>)
    requires Distinct(Models(qss))
    ensures Distinct(Models(AddedAll(qss, more)))
    decreases |more|
  {
    if more != [] {
      AddedAllDistinct(qss, more[..|more| - 1]);
      AddedAllSnoc(qss, more[..|more| - 1], more);
    }
  }

  /** Adding querysets one after another adds their models. */
  lemma {:induction false} AddedAllModels<M, T>(qss: seq<QuerySet<M, T>>, more: seq<QuerySet<M, T>>)
    ensures Elems(Models(AddedAll(qss, more))) == Elems(Models(qss)) + Elems(Models(more))
    decreases |more|
  {
    if more != [] {
      var init, q := more[..|more| - 1], more[|more| - 1];
      AddedAllModels(qss, init);
      AddedAllSnoc(qss, init, more);
      assert more == init + [q];
      ModelsStep(AddedAll(qss, init), q, init, qss);
    }
  }

  lemma ModelsStep<M, T>(prev: seq<QuerySet<M, T>>, q: QuerySet<M, T>, init: seq<QuerySet<M, T>>, base: seq<QuerySet<M, T>>)
    requires Elems(Models(prev)) == Elems(Models(base)) + Elems(Models(init))
    ensures Elems(Models(Added(prev, q))) == Elems(Models(base)) + Elems(Models(init + [q]))
  {
    AddedModels(prev, q);
    ModelsSnoc(init, q);
  }

  /** Adding querysets one after another keeps every model in its place. */
  lemma {:induction false} AddedAllKeepsPlaces<M, T>(qss: seq<QuerySet<M, T>>, more: seq<QuerySet<M, T>>)
    ensures |AddedAll(qss, more)| >= |qss|
    ensures forall a :: 0 <= a < |qss| ==> AddedAll(qss, more)[a].model == qss[a].model
    decreases |more|
  {
    if more != [] {
      var init, q := more[..|more| - 1], more[|more| - 1];
      AddedAllKeepsPlaces(qss, init);
      AddedAllSnoc(qss, init, more);
      AddedModels(AddedAll(qss, init), q);
    }
  }

  lemma ModelsSnoc<M, T>(qss: seq<QuerySet<M, T>>, q: QuerySet<M, T>)
    ensures Elems(Models(qss + [q])) == Elems(Models(qss)) + {q.model}
  {
    assert Models(qss + [q]) == Models(qss) + [q.model];
  }

  /** Adding querysets one after another adds exactly their rows. */
  lemma {:induction false} AddedAllRow<M, T>(base: seq<QuerySet<M, T>>, more: seq<QuerySet<M, T>>, x: T)
    requires Distinct(Models(base))
    ensures HasRow(AddedAll(base, more), x) <==> HasRow(base, x) || HasRow(more, x)
    decreases |more|
  {
    if more != [] {
      var init, q := more[..|more| - 1], more[|more| - 1];
      AddedAllRow(base, init, x);
      AddedAllDistinct(base, init);
      AddedAllSnoc(base, init, more);
      assert more == init + [q];
      RowStep(AddedAll(base, init), q, init, base, x);
    }
  }

  lemma RowStep<M, T>(prev: seq<QuerySet<M, T>>, q: QuerySet<M, T>, init: seq<QuerySet<M, T>>,
                      base: seq<QuerySet<M, T>>, x: T)
    requires Distinct(Models(prev))
    requires HasRow(prev, x) <==> HasRow(base, x) || HasRow(init, x)
    ensures HasRow(Added(prev, q), x) <==> HasRow(base, x) || HasRow(init + [q], x)
  {
    AddedRows(prev, q, x);
    HasRowSnoc(init, q, x);
  }

  lemma HasRowSnoc<M, T>(qss: seq<QuerySet<M, T>>, q: QuerySet<M, T>, x: T)
    ensures HasRow(qss + [q], x) <==> HasRow(qss, x) || x in q.rows
  {
    var r := qss + [q];
    if HasRow(qss, x) {
      var a :| 0 <= a < |qss| && x in qss[a].rows;
      assert r[a] == qss[a];
    }
    if x in q.rows {
      assert r[|qss|] == q;
    }
    if HasRow(r, x) {
      var a :| 0 <= a < |r| && x in r[a].rows;
      if a < |qss| {
        assert r[a] == qss[a];
      }
    }
  }

  /** The querysets of the models of `ms` have exactly those models'
      rows. */
  lemma ModelQuerySetsRow<M, T>(ms: seq<M>, db: M -> seq<T>, x: T)
    ensures HasRow(ModelQuerySets(ms, db), x) <==> YieldsAny(Elems(ms), db, x)
  {
    var q := ModelQuerySets(ms, db);
    if HasRow(q, x) {
      var a :| 0 <= a < |q| && x in q[a].rows;
      assert ms[a] in Elems(ms) && x in db(ms[a]);
    }
    if YieldsAny(Elems(ms), db, x) {
      var m :| m in Elems(ms) && x in db(m);
      var a :| 0 <= a < |ms| && ms[a] == m;
      assert x in q[a].rows;
    }
  }

  /** The querysets of the models of `ms` added to `base` have exactly the
      rows of `base` and of those models. */
  lemma ModelsAddedRows<M, T>(base: seq<QuerySet<M, T>>, ms: seq<M>, db: M -> seq<T>)
    requires Distinct(Models(base))
    ensures forall x :: HasRow(AddedAll(base, ModelQuerySets(ms, db)), x) <==> HasRow(base, x) || YieldsAny(Elems(ms), db, x)
  {
    forall x ensures HasRow(AddedAll(base, ModelQuerySets(ms, db)), x) <==> HasRow(base, x) || YieldsAny(Elems(ms), db, x) {
      AddedAllRow(base, ModelQuerySets(ms, db), x);
      ModelQuerySetsRow(ms, db, x);
    }
  }

  lemma AddedAllSnoc<M, T>(qss: seq<QuerySet<M, T>>, init: seq<QuerySet<M, T>>, more: seq<QuerySet<M, T>>)
    requires more != [] && more[..|more| - 1] == init
    ensures AddedAll(qss, more) == Added(AddedAll(qss, init), more[|more| - 1])
  {
  }

  /** No source is an abstract model class. */
  predicate NoAbstract<M, T>(srcs: seq<Source<M, T>>)
  {
    forall j :: 0 <= j < |srcs| ==> !IsAbstractClass(srcs[j])
  }

  lemma NoAbstractPrefix<M, T>(srcs: seq<Source<M, T>>, i: nat)
    requires i < |srcs| && NoAbstract(srcs[..i + 1])
    ensures NoAbstract(srcs[..i]) && !IsAbstractClass(srcs[i])
  {
    assert srcs[..i + 1][i] == srcs[i];
    forall j | 0 <= j < i ensures !IsAbstractClass(srcs[..i][j]) {
      assert srcs[..i][j] == srcs[..i + 1][j];
    }
  }

  /** One more source that is not an abstract model class adds its
      queryset after the ones before. */
  lemma SourceQuerySetsStep<M, T>(srcs: seq<Source<M, T>>, i: nat, db: M -> seq<T>,
                                  before: seq<QuerySet<M, T>>, after: seq<QuerySet<M, T>>)
    requires i < |srcs|
    requires NoAbstract(srcs[..i]) ==> before == AddedAll([], SourceQuerySets(srcs[..i], db))
    requires !IsAbstractClass(srcs[i]) ==> after == Added(before, SourceQuerySet(srcs[i], db))
    ensures NoAbstract(srcs[..i + 1]) ==> after == AddedAll([], SourceQuerySets(srcs[..i + 1], db))
  {
    if NoAbstract(srcs[..i + 1]) {
      NoAbstractPrefix(srcs, i);
      var more := SourceQuerySets(srcs[..i + 1], db);
      var init := SourceQuerySets(srcs[..i], db);
      assert more[..|more| - 1] == init;
      assert more[|more| - 1] == SourceQuerySet(srcs[i], db);
      AddedAllSnoc([], init, more);
    }
  }

  /** The models taken so far and the one picked next from those left. */
  lemma PickedModel<M>(ms: seq<M>, m: M, left: set<M>, subs: set<M>)
    requires Distinct(ms) && Elems(ms) == subs - left && left <= subs && m in left
    ensures Distinct(ms + [m]) && Elems(ms + [m]) == subs - (left - {m})
  {
    DistinctSnoc(ms, m);
    assert Elems(ms + [m]) == Elems(ms) + {m};
  }

  /** A model not yet in `ms` keeps its models distinct. */
  lemma DistinctSnoc<M>(ms: seq<M>, m: M)
    requires Distinct(ms) && m !in ms
    ensures Distinct(ms + [m])
  {
    var r := ms + [m];
    forall a, b | 0 <= a < b < |r| ensures r[a] != r[b] {
      assert r[a] == ms[a];
      if b < |ms| {
        assert r[b] == ms[b];
      }
    }
  }

  /** How the union sorts: `sort()` without a key orders by the rows
      themselves, a string key by that attribute, and any other key is a
      callable. */
  datatype SortKey<!T> = Identity | Attribute(name: string) | Callable(f: T -> int)

  /** The `key` argument of `sort`. */
  datatype KeyArg<!T> = NoKey | KeyName(name: string) | KeyFunc(f: T -> int)

  /** The key and direction `sort(key, reverse)` settles on: a leading `-`
      on a key name flips the direction. An empty key name fails, as its
      first character is read. */
  function SortKeyOf<T>(key: KeyArg<T>, reverse: bool): (r: Result<(SortKey<T>, bool), Error>)
    ensures r.Failure? <==> key.KeyName? && key.name == ""
    ensures r.Success? && key.KeyName? ==> r.value.0 == Attribute(if key.name[0] == '-' then key.name[1..] else key.name)
    ensures r.Success? ==> r.value.1 == (if key.KeyName? && key.name[0] == '-' then !reverse else reverse)
  {
    match key
    case NoKey => Success((Identity, reverse))
    case KeyFunc(f) => Success((Callable(f), reverse))
    case KeyName(s) =>
      if |s| == 0 then Failure(IndexError)
      else if s[0] == '-' then Success((Attribute(s[1..]), !reverse))
      else Success((Attribute(s), reverse))
  }

  /** `sort('-a', r)` is `sort('a', not r)`. */
  lemma DashFlips<T>(name: string, reverse: bool)
    requires name != [] && name[0] != '-'
    ensures SortKeyOf<T>(KeyName(['-'] + name), reverse) == SortKeyOf<T>(KeyName(name), !reverse)
  {
    assert (['-'] + name)[1..] == name;
  }

  /** The key function a sort key stands for, given Python's `getattr` on
      rows and the rows' own order. */
  function KeyFn<T>(k: SortKey<T>, getattr: (T, string) -> int, rank: T -> int): T -> int
  {
    match k
    case Identity => rank
    case Attribute(name) => (x: T) => getattr(x, name)
    case Callable(f) => f
  }

  /** `qs[:stop]` on every part. */
  function Truncated<T>(parts: seq<seq<T>>, stop: int): (r: seq<seq<T>>)
    ensures |r| == |parts|
    ensures forall i :: 0 <= i < |parts| ==> r[i] == Window(parts[i], 0, Some(stop))
  {
    seq(|parts|, i requires 0 <= i < |parts| => Window(parts[i], 0, Some(stop)))
  }

  /** The parts the sorted iteration merges: each cut to `qs[:stop]` when
      `stop` is set and not 0. */
  function SortInput<T>(parts: seq<seq<T>>, stop: Option<int>): (r: seq<seq<T>>)
    ensures |r| == |parts|
    ensures forall i :: 0 <= i < |parts| ==> r[i] == if Truthy(stop) then Window(parts[i], 0, stop) else parts[i]
  {
    if Truthy(stop) then Truncated(parts, stop.value) else parts
  }

  /** `out` is the window `[lo:stop]` of a merge of the (cut) parts: a
      permutation of their rows, which is ordered when every part is. */
  ghost predicate SortedWindow<T(!new)>(out: seq<T>, parts: seq<seq<T>>, key: T -> int, reverse: bool, lo: int, stop: Option<int>)
  {
    exists m :: && multiset(m) == multiset(Flatten(SortInput(parts, stop)))
                && (PartsOrdered(parts, key, reverse) ==> OrderedBy(m, key, reverse))
                && out == Window(m, lo, stop)
  }

  lemma SortedWindowOf<T(!new)>(m: seq<T>, parts: seq<seq<T>>, key: T -> int, reverse: bool, lo: int, stop: Option<int>)
    requires multiset(m) == multiset(Flatten(SortInput(parts, stop)))
    requires PartsOrdered(parts, key, reverse) ==> OrderedBy(m, key, reverse)
    ensures SortedWindow(Window(m, lo, stop), parts, key, reverse, lo, stop)
  {
  }

  /** `itertools.islice` refuses a negative bound. */
  predicate NegativeLimit(start: Option<int>, stop: Option<int>)
  {
    (start.Some? && start.value < 0) || (stop.Some? && stop.value < 0)
  }

  /** `UnionQuerySet`: the querysets, one per model, with the dictionary
      from model to queryset, the window `limits`, and the sort key and
      direction. */
  class UnionQuerySet<M(==), T(==, !new)> {
    var querysets: seq<QuerySet<M, T>>
    var byModel: map<M, QuerySet<M, T>>
    var start: Option<int>
    var stop: Option<int>
    var sortKey: Option<SortKey<T>>
    var sortReverse: bool

    ghost predicate Valid()
      reads this
    {
      Agrees(querysets, byModel)
    }

    /** `UnionQuerySet(*querysets)`: each source is added in turn; no
        window and no sort. `db` gives the rows of a model. */
    constructor(sources: seq<Source<M, T>>, db: M -> seq<T>)
      ensures Valid()
      ensures Elems(Models(querysets)) == SourcesModels(sources)
      ensures forall x :: RowsFrom(querysets, sources, db, x)
      ensures NoAbstract(sources) ==> querysets == AddedAll([], SourceQuerySets(sources, db))
      ensures start == None && stop == None && sortKey == None && !sortReverse
    {
      querysets := [];
      byModel := map[];
      start, stop := None, None;
      sortKey := None;
      sortReverse := false;
      new;
      var i := 0;
      while i < |sources|
        invariant i <= |sources|
        invariant Valid()
        invariant Elems(Models(querysets)) == SourcesModels(sources[..i])
        invariant forall x :: RowsFrom(querysets, sources[..i], db, x)
        invariant NoAbstract(sources[..i]) ==> querysets == AddedAll([], SourceQuerySets(sources[..i], db))
        invariant start == None && stop == None && sortKey == None && !sortReverse
      {
        ghost var before := querysets;
        AddSource(sources[i], db);
        SourcesModelsStep(sources, i);
        RowsFromStep(before, querysets, sources[..i], sources[i], db);
        SourceQuerySetsStep(sources, i, db, before, querysets);
        i := i + 1;
      }
      assert sources[..i] == sources;
    }

    /** `_add_qs` for a queryset: merged in place into the queryset of its
        model when there is one (found through the dictionary, then by
        `list.index`), appended otherwise. */
    method AddQuery(qs: QuerySet<M, T>)
      requires Valid()
      modifies this
      ensures Valid()
      ensures querysets == Added(old(querysets), qs)
      ensures start == old(start) && stop == old(stop)
      ensures sortKey == old(sortKey) && sortReverse == old(sortReverse)
    {
      if qs.model in byModel {
        var modelQs := byModel[qs.model];
        var index := DbUtils.FirstIndex(querysets, modelQs);
        var j := DbUtils.FirstIndex(Models(querysets), qs.model);
        assert querysets[j] == modelQs;
        assert index == j;
        var merged := Or(qs, modelQs);
        querysets := querysets[index := merged];
        byModel := byModel[merged.model := merged];
      } else {
        assert qs.model !in Models(querysets);
        querysets := querysets + [qs];
        byModel := byModel[qs.model := qs];
      }
      assert Models(querysets) == Models(old(querysets)) || Models(querysets) == Models(old(querysets)) + [qs.model];
    }

    /** `_add_qs`: an abstract model class adds the queryset of each of its
        direct concrete subclasses (`get_sub_models(model, direct=True)`,
        taken in no particular order); any other source adds its
        queryset. */
    method AddSource(src: Source<M, T>, db: M -> seq<T>)
      requires Valid()
      modifies this
      ensures Valid()
      ensures Elems(Models(querysets)) == Elems(Models(old(querysets))) + SourceModels(src)
      ensures |querysets| >= |old(querysets)|
      ensures forall a :: 0 <= a < |old(querysets)| ==> querysets[a].model == old(querysets)[a].model
      ensures !IsAbstractClass(src) ==> querysets == Added(old(querysets), SourceQuerySet(src, db))
      ensures IsAbstractClass(src) ==>
                exists ms :: && Distinct(ms) && Elems(ms) == DbUtils.Collected(src.tree, ConcreteOnly(), true)
                             && querysets == AddedAll(old(querysets), ModelQuerySets(ms, db))
      ensures forall x :: HasRow(querysets, x) <==> HasRow(old(querysets), x) || SourceYields(src, db, x)
      ensures start == old(start) && stop == old(stop)
      ensures sortKey == old(sortKey) && sortReverse == old(sortReverse)
    {
      if IsAbstractClass(src) {
        var subs := DbUtils.Collected(src.tree, ConcreteOnly(), true);
        AddModels(subs, db);
      } else {
        ghost var before := querysets;
        var qs := SourceQuerySet(src, db);
        AddedModels(querysets, qs);
        AddQuery(qs);
        forall x ensures HasRow(querysets, x) <==> HasRow(before, x) || x in qs.rows {
          AddedRows(before, qs, x);
        }
      }
    }

    /** The loop over an abstract model's subclasses in `_add_qs`: the
        queryset of all rows of every model of `subs` is added, in some
        order. A model `get_sub_models` returns is never abstract. */
    method AddModels(subs: set<M>, db: M -> seq<T>)
      requires Valid()
      modifies this
      ensures Valid()
      ensures Elems(Models(querysets)) == Elems(Models(old(querysets))) + subs
      ensures |querysets| >= |old(querysets)|
      ensures forall a :: 0 <= a < |old(querysets)| ==> querysets[a].model == old(querysets)[a].model
      ensures exists ms :: && Distinct(ms) && Elems(ms) == subs
                           && querysets == AddedAll(old(querysets), ModelQuerySets(ms, db))
      ensures forall x :: HasRow(querysets, x) <==> HasRow(old(querysets), x) || YieldsAny(subs, db, x)
      ensures start == old(start) && stop == old(stop)
      ensures sortKey == old(sortKey) && sortReverse == old(sortReverse)
    {
      var left := subs;
      ghost var base := querysets;
      ghost var ms: seq<M> := [];
      while left != {}
        invariant left <= subs
        invariant Valid()
        invariant Distinct(ms) && Elems(ms) == subs - left
        invariant querysets == AddedAll(base, ModelQuerySets(ms, db))
        invariant start == old(start) && stop == old(stop)
        invariant sortKey == old(sortKey) && sortReverse == old(sortReverse)
        decreases left
      {
        var m :| m in left;
        var qs := QuerySet(m, db(m));
        AddQuery(qs);
        ModelQuerySetsSnoc(base, ms, m, db);
        PickedModel(ms, m, left, subs);
        ms := ms + [m];
        left := left - {m};
      }
      assert subs - left == subs;
      assert Distinct(ms) && Elems(ms) == subs && querysets == AddedAll(base, ModelQuerySets(ms, db));
      ModelsAddedRows(base, ms, db);
      AddedAllModels(base, ModelQuerySets(ms, db));
      AddedAllKeepsPlaces(base, ModelQuerySets(ms, db));
      assert Models(ModelQuerySets(ms, db)) == ms;
    }

    /** `_clone()`: a new union with the same querysets, dictionary,
        window and sort. */
    method Clone() returns (c: UnionQuerySet<M, T>)
      ensures fresh(c)
      ensures c.querysets == querysets && c.byModel == byModel
      ensures c.start == start && c.stop == stop
      ensures c.sortKey == sortKey && c.sortReverse == sortReverse
    {
      c := new UnionQuerySet([], (m: M) => []);
      c.querysets := querysets;
      c.byModel := byModel;
      c.start, c.stop := start, stop;
      c.sortKey := sortKey;
      c.sortReverse := sortReverse;
    }

    /** `sort(key, reverse)`: a clone with the key and direction that
        `SortKeyOf` settles on; this union is left as it is. */
    method Sort(key: KeyArg<T>, reverse: bool) returns (r: Result<UnionQuerySet<M, T>, Error>)
      ensures r.Failure? <==> SortKeyOf(key, reverse).Failure?
      ensures r.Failure? ==> r.error == IndexError
      ensures r.Success? ==> fresh(r.value)
      ensures r.Success? ==> r.value.querysets == querysets && r.value.byModel == byModel
      ensures r.Success? ==> r.value.start == start && r.value.stop == stop
      ensures r.Success? ==> r.value.sortKey == Some(SortKeyOf(key, reverse).value.0)
      ensures r.Success? ==> r.value.sortReverse == SortKeyOf(key, reverse).value.1
    {
      var clone := Clone();
      var k := SortKeyOf(key, reverse);
      if k.Failure? {
        return Failure(k.error);
      }
      clone.sortKey := Some(k.value.0);
      clone.sortReverse := k.value.1;
      return Success(clone);
    }

    /** `self[lo:hi]`: a clone with that window; this union is left as it
        is. */
    method GetSlice(lo: Option<int>, hi: Option<int>) returns (c: UnionQuerySet<M, T>)
      ensures fresh(c)
      ensures c.querysets == querysets && c.byModel == byModel
      ensures c.start == lo && c.stop == hi
      ensures c.sortKey == sortKey && c.sortReverse == sortReverse
    {
      c := Clone();
      c.start, c.stop := lo, hi;
    }

    /** `self | other` for a queryset: a clone with it added. A model class
        is neither a queryset nor a model instance, and gets `TypeError`. */
    method OrSource(other: Source<M, T>) returns (r: Result<UnionQuerySet<M, T>, Error>)
      requires Valid()
      ensures other.ModelClass? ==> r == Failure(TypeError)
      ensures other.Query? ==> r.Success? && fresh(r.value) && r.value.Valid()
      ensures other.Query? ==> r.value.querysets == Added(querysets, other.qs)
      ensures other.Query? ==> r.value.start == start && r.value.stop == stop
      ensures other.Query? ==> r.value.sortKey == sortKey && r.value.sortReverse == sortReverse
    {
      if other.ModelClass? {
        return Failure(TypeError);
      }
      var clone := Clone();
      clone.AddQuery(other.qs);
      return Success(clone);
    }

    /** `self | other` for another union: a clone with each of the other's
        querysets added in turn. */
    method OrUnion(other: UnionQuerySet<M, T>) returns (c: UnionQuerySet<M, T>)
      requires Valid()
      ensures fresh(c) && c.Valid()
      ensures c.querysets == AddedAll(querysets, other.querysets)
      ensures c.start == start && c.stop == stop
      ensures c.sortKey == sortKey && c.sortReverse == sortReverse
    {
      c := Clone();
      c.AddQueries(other.querysets);
    }

    /** `add_query` for each queryset of `more` in turn. */
    method AddQueries(more: seq<QuerySet<M, T>>)
      requires Valid()
      modifies this
      ensures Valid() && querysets == AddedAll(old(querysets), more)
      ensures start == old(start) && stop == old(stop)
      ensures sortKey == old(sortKey) && sortReverse == old(sortReverse)
    {
      ghost var base := querysets;
      var i := 0;
      while i < |more|
        invariant i <= |more|
        invariant Valid() && querysets == AddedAll(base, more[..i])
        invariant start == old(start) && stop == old(stop)
        invariant sortKey == old(sortKey) && sortReverse == old(sortReverse)
      {
        AddedAllStep(base, more, i);
        AddQuery(more[i]);
        i := i + 1;
      }
      assert more[..i] == more;
    }

    /** `coerce(model)`: the queryset of `model`, or an empty queryset of
        `model` when there is none or it yields no rows. */
    function Coerce(model: M): (r: QuerySet<M, T>)
      reads this
      ensures Valid() ==> r.model == model
      ensures Valid() && model !in Models(querysets) ==> r.rows == []
      ensures Valid() ==> forall a :: 0 <= a < |querysets| && querysets[a].model == model ==> r.rows == querysets[a].rows
    {
      if model in byModel && byModel[model].rows != [] then byModel[model] else QuerySet(model, [])
    }

    /** `self[k]` for an integer: row `k` of the querysets one after
        another, `IndexError` past the end. A negative index fails in the
        first queryset, which refuses it with an assertion. */
    method GetItem(k: int) returns (r: Result<T, Error>)
      ensures k < 0 && querysets != [] ==> r == Failure(AssertionError)
      ensures 0 <= k < |Flatten(Parts(querysets))| ==> r == Success(Flatten(Parts(querysets))[k])
      ensures k >= |Flatten(Parts(querysets))| || (k < 0 && querysets == []) ==> r == Failure(IndexError)
    {
      var parts := Parts(querysets);
      var index := k;
      var i := 0;
      while i < |querysets|
        invariant i <= |querysets|
        invariant index == k - |Flatten(parts[..i])|
        invariant i > 0 ==> index >= 0
      {
        FlattenSnoc(parts, i);
        var rows := querysets[i].rows;
        if index < 0 {
          return Failure(AssertionError);
        }
        if index < |rows| {
          PrefixElement(parts, i, index);
          return Success(rows[index]);
        }
        index := index - |rows|;
        i := i + 1;
      }
      assert parts[..i] == parts;
      return Failure(IndexError);
    }

    /** `iter(self)`. Without a sort key the querysets are chained under
        the window. With one, each queryset is first cut at a non-zero
        stop, the cut querysets are merged by the key, and the window is
        laid over the merge by `islice`, which refuses negative bounds.
        `getattr` reads an attribute of a row and `rank` is the rows' own
        order. */
    method Iterate(getattr: (T, string) -> int, rank: T -> int) returns (r: Result<seq<T>, Error>)
      ensures sortKey.None? ==> r == Success(ChainedAsWritten(Parts(querysets), start, stop))
      ensures sortKey.Some? ==> (r.Failure? <==> NegativeLimit(start, stop))
      ensures sortKey.Some? && r.Failure? ==>
        r.error == if stop.Some? && stop.value < 0 && querysets != [] then AssertionError else ValueError
      ensures sortKey.Some? && r.Success? ==> multiset(r.value) <= multiset(Flatten(Parts(querysets)))
      ensures sortKey.Some? && r.Success? ==>
        SortedWindow(r.value, Parts(querysets), KeyFn(sortKey.value, getattr, rank), sortReverse,
                     if start.Some? then start.value else 0, stop)
      ensures sortKey.Some? && r.Success? && PartsOrdered(Parts(querysets), KeyFn(sortKey.value, getattr, rank), sortReverse) ==>
        OrderedBy(r.value, KeyFn(sortKey.value, getattr, rank), sortReverse)
      ensures sortKey.Some? && !Truthy(start) && !Truthy(stop) && stop != Some(0) ==>
        r.Success? && multiset(r.value) == multiset(Flatten(Parts(querysets)))
    {
      var parts := Parts(querysets);
      if sortKey.None? {
        var out := ChainedUnion(parts, start, stop);
        return Success(out);
      }
      var key := KeyFn(sortKey.value, getattr, rank);
      ghost var ordered := PartsOrdered(parts, key, sortReverse);
      if Truthy(stop) {
        if stop.value < 0 && |parts| > 0 {
          return Failure(AssertionError);
        }
        TruncatedRows(parts, stop.value);
        if ordered {
          TruncatedOrdered(parts, stop.value, key, sortReverse);
        }
        parts := Truncated(parts, stop.value);
      }
      var merged := SortedUnion(parts, key, sortReverse);
      if NegativeLimit(start, stop) {
        return Failure(ValueError);
      }
      var out := Window(merged, if start.Some? then start.value else 0, stop);
      assert parts == SortInput(Parts(querysets), stop);
      WindowRows(merged, if start.Some? then start.value else 0, stop);
      if ordered {
        WindowOrdered(merged, if start.Some? then start.value else 0, stop, key, sortReverse);
      }
      SortedWindowOf(merged, Parts(querysets), key, sortReverse, if start.Some? then start.value else 0, stop);
      return Success(out);
    }
  }

  /** Element `index` of part `i` is element `|Flatten(parts[..i])| +
      index` of the concatenation. */
  lemma PrefixElement<T>(parts: seq<seq<T>>, i: nat, index: nat)
    requires i < |parts| && index < |parts[i]|
    ensures |Flatten(parts[..i])| + index < |Flatten(parts)|
    ensures Flatten(parts)[|Flatten(parts[..i])| + index] == parts[i][index]
  {
    assert parts == parts[..i] + parts[i..];
    FlattenAppend(parts[..i], parts[i..]);
    assert Flatten(parts[i..]) == parts[i] + Flatten(parts[i..][1..]);
  }

  lemma WindowRows<T>(xs: seq<T>, lo: int, hi: Option<int>)
    ensures multiset(Window(xs, lo, hi)) <= multiset(xs)
    ensures lo <= 0 && hi.None? ==> Window(xs, lo, hi) == xs
  {
    var a := Clamp(lo, |xs|);
    var b := if hi.None? then |xs| else Clamp(hi.value, |xs|);
    if a <= b {
      assert xs == xs[..a] + xs[a..b] + xs[b..];
    }
  }

  lemma WindowOrdered<T>(xs: seq<T>, lo: int, hi: Option<int>, key: T -> int, reverse: bool)
    requires OrderedBy(xs, key, reverse)
    ensures OrderedBy(Window(xs, lo, hi), key, reverse)
  {
    var a := Clamp(lo, |xs|);
    var w := Window(xs, lo, hi);
    forall x, y | 0 <= x < y < |w|
      ensures Before(key(w[x]), key(w[y]), reverse)
    {
      assert w[x] == xs[a + x] && w[y] == xs[a + y];
    }
  }

  lemma {:induction false} TruncatedRows<T>(parts: seq<seq<T>>, stop: int)
    ensures multiset(Flatten(Truncated(parts, stop))) <= multiset(Flatten(parts))
    decreases |parts|
  {
    if parts != [] {
      var t := Truncated(parts, stop);
      assert t[1..] == Truncated(parts[1..], stop);
      TruncatedRows(parts[1..], stop);
      WindowRows(parts[0], 0, Some(stop));
    }
  }

  lemma TruncatedOrdered<T>(parts: seq<seq<T>>, stop: int, key: T -> int, reverse: bool)
    requires PartsOrdered(parts, key, reverse)
    ensures PartsOrdered(Truncated(parts, stop), key, reverse)
  {
    forall i | 0 <= i < |parts|
      ensures OrderedBy(Truncated(parts, stop)[i], key, reverse)
    {
      WindowOrdered(parts[i], 0, Some(stop), key, reverse);
    }
  }
}
