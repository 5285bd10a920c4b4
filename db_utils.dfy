/** Helpers of `shrubbery.db.utils`: `clean_slice`, the flattening
    combiner `CompoundQ`, the join bookkeeping `forge_join`/`remove_join`
    of a query, the subclass walk of `get_sub_models`, and
    `unordered_pairs`. */
module DbUtils {
  import opened Wrappers

  datatype Error = ValueError | KeyError

  // ---------------------------------------------------------------------
  // clean_slice
  // ---------------------------------------------------------------------

  /** A Python `slice(start, stop, step)`; `None` is `None`. */
  datatype Slice = Slice(start: Option<int>, stop: Option<int>, step: Option<int>)

  /** `count_func`: a count given outright, or a callable that returns `n`
      each time it is called. */
  datatype Count = Given(n: nat) | Deferred(n: nat)

  /** `allow_step`: `True` (every step) or the steps allowed. */
  datatype StepRule = AnyStep | Steps(allowed: seq<int>)

  /** The cleaned slice and how many times the count callable was called. */
  datatype Cleaned = Cleaned(slice: Slice, calls: nat)

  /** `max(count + x, 0)`. */
  function FromEnd(x: int, count: nat): nat
  {
    if count + x > 0 then count + x else 0
  }

  /** Whether cleaning needs the count: a negative bound, or a missing
      stop that is to be replaced. */
  predicate NeedsCount(s: Slice, replaceNone: bool)
  {
    || (s.start.Some? && s.start.value < 0)
    || (s.stop.None? && replaceNone)
    || (s.stop.Some? && s.stop.value < 0)
  }

  /** The step after `None` is replaced. */
  function CleanStep(step: Option<int>, replaceNone: bool): Option<int>
  {
    if step.None? && replaceNone then Some(1) else step
  }

  /** `clean_slice(s, count_func, replace_none, allow_step)`. */
  function CleanSlice(s: Slice, count: Count, replaceNone: bool, allow: StepRule): (r: Result<Cleaned, Error>)
    ensures r.Failure? <==>
              var step := CleanStep(s.step, replaceNone);
              step.Some? && step.value != 0 && allow.Steps? && step.value !in allow.allowed
    ensures r.Failure? ==> r.error == ValueError
    ensures r.Success? ==> r.value.slice.step == CleanStep(s.step, replaceNone)
    ensures r.Success? ==> r.value.calls <= 1
    ensures r.Success? ==> (r.value.calls == 1 <==> count.Deferred? && NeedsCount(s, replaceNone))
  {
    var n := count.n;
    var start :=
      if s.start.None? then (if replaceNone then Some(0) else None)
      else if s.start.value < 0 then Some(FromEnd(s.start.value, n))
      else s.start;
    var stop :=
      if s.stop.None? then (if replaceNone then Some(n) else None)
      else if s.stop.value < 0 then Some(FromEnd(s.stop.value, n))
      else s.stop;
    var step := CleanStep(s.step, replaceNone);
    var calls := if count.Deferred? && NeedsCount(s, replaceNone) then 1 else 0;
    if step.Some? && step.value != 0 && allow.Steps? && step.value !in allow.allowed then Failure(ValueError)
    else Success(Cleaned(Slice(start, stop, step), calls))
  }

  /** The bounds `clean_slice` produces: a negative bound counts from the
      end and stops at 0, a non-negative bound is kept even beyond the
      count, and `None` stays `None` unless it is to be replaced. */
  lemma CleanSliceBounds(s: Slice, count: Count, replaceNone: bool, allow: StepRule)
    requires CleanSlice(s, count, replaceNone, allow).Success?
    ensures var c := CleanSlice(s, count, replaceNone, allow).value.slice;
            && (s.start.Some? && s.start.value >= 0 ==> c.start == s.start)
            && (s.start.Some? && s.start.value < 0 ==> c.start == Some(FromEnd(s.start.value, count.n)))
            && (s.start.None? ==> c.start == if replaceNone then Some(0) else None)
            && (s.stop.Some? && s.stop.value >= 0 ==> c.stop == s.stop)
            && (s.stop.Some? && s.stop.value < 0 ==> c.stop == Some(FromEnd(s.stop.value, count.n)))
            && (s.stop.None? ==> c.stop == if replaceNone then Some(count.n) else None)
  {
  }

  /** Python's reading of a slice bound against a sequence of length `n`. */
  function PyBound(x: Option<int>, n: nat, absent: nat): nat
  {
    if x.None? then absent
    else if x.value < 0 then FromEnd(x.value, n)
    else if x.value < n then x.value
    else n
  }

  /** `xs[start:stop]` in Python. */
  function PySlice<T>(xs: seq<T>, start: Option<int>, stop: Option<int>): seq<T>
  {
    var lo := PyBound(start, |xs|, 0);
    var hi := PyBound(stop, |xs|, |xs|);
    if lo < hi then xs[lo..hi] else []
  }

  function Clip(x: int, n: nat): nat
  {
    if x < 0 then 0 else if x < n then x else n
  }

  /** With `replace_none`, the cleaned bounds, cut to the length of the
      sequence, select exactly what Python's slicing selects. */
  lemma CleanSliceSelects<T>(xs: seq<T>, s: Slice, allow: StepRule)
    requires CleanSlice(s, Given(|xs|), true, allow).Success?
    ensures var c := CleanSlice(s, Given(|xs|), true, allow).value.slice;
            && c.start.Some? && c.stop.Some?
            && var lo := Clip(c.start.value, |xs|);
               var hi := Clip(c.stop.value, |xs|);
               PySlice(xs, s.start, s.stop) == if lo < hi then xs[lo..hi] else []
  {
  }

  // ---------------------------------------------------------------------
  // CompoundQ
  // ---------------------------------------------------------------------

  /** What a Django `Q` or another query object stands for: a leaf
      condition or the `&`, `|` and `~` of Django's own operators. */
  datatype Expr<L> = Leaf(leaf: L) | Both(left: Expr<L>, right: Expr<L>)
                   | Either(left: Expr<L>, right: Expr<L>) | Not(inner: Expr<L>)

  /** A member of a `CompoundQ`: a builtin `Q`, any other object with its
      own operators, or a nested `CompoundQ`. */
  datatype Obj<L> = Q(q: Expr<L>) | Other(e: Expr<L>) | Compound(objects: seq<Obj<L>>, conjunction: bool)

  function EvalExpr<L>(e: Expr<L>, holds: L -> bool): bool
  {
    match e
    case Leaf(l) => holds(l)
    case Both(a, b) => EvalExpr(a, holds) && EvalExpr(b, holds)
    case Either(a, b) => EvalExpr(a, holds) || EvalExpr(b, holds)
    case Not(a) => !EvalExpr(a, holds)
  }

  /** The condition a member adds to a query; a `CompoundQ` joins its
      members with AND when `conjunction` holds and with OR otherwise. */
  function Eval<L>(o: Obj<L>, holds: L -> bool): bool
  {
    match o
    case Q(q) => EvalExpr(q, holds)
    case Other(e) => EvalExpr(e, holds)
    case Compound(objects, conjunction) => EvalAll(objects, conjunction, holds)
  }

  function EvalAll<L>(objects: seq<Obj<L>>, conjunction: bool, holds: L -> bool): bool
  {
    if |objects| == 0 then conjunction
    else if conjunction then Eval(objects[0], holds) && EvalAll(objects[1..], conjunction, holds)
    else Eval(objects[0], holds) || EvalAll(objects[1..], conjunction, holds)
  }

  /** `~obj`. */
  function Invert<L>(o: Obj<L>): Obj<L>
  {
    match o
    case Q(q) => Q(Not(q))
    case Other(e) => Other(Not(e))
    case Compound(objects, conjunction) => Compound(InvertAll(objects), !conjunction)
  }

  function InvertAll<L>(objects: seq<Obj<L>>): (r: seq<Obj<L>>)
    ensures |r| == |objects|
    ensures forall i :: 0 <= i < |r| ==> r[i] == Invert(objects[i])
  {
    if |objects| == 0 then [] else [Invert(objects[0])] + InvertAll(objects[1..])
  }

  /** `~CompoundQ` negates every member and flips the connector, so it
      holds exactly when the original does not (De Morgan). */
  lemma {:induction false} InvertMeaning<L>(o: Obj<L>, holds: L -> bool)
    ensures Eval(Invert(o), holds) == !Eval(o, holds)
    decreases o, 1
  {
    match o
    case Q(_) =>
    case Other(_) =>
    case Compound(objects, conjunction) =>
      InvertAllMeaning(objects, conjunction, holds);
  }

  lemma {:induction false} InvertAllMeaning<L>(objects: seq<Obj<L>>, conjunction: bool, holds: L -> bool)
    ensures EvalAll(InvertAll(objects), !conjunction, holds) == !EvalAll(objects, conjunction, holds)
    decreases objects, 0
  {
    if |objects| > 0 {
      InvertMeaning(objects[0], holds);
      InvertAllMeaning(objects[1..], conjunction, holds);
      assert InvertAll(objects)[1..] == InvertAll(objects[1..]);
    }
  }

  /** The index of the first builtin `Q` member. */
  function FirstQ<L>(objects: seq<Obj<L>>): (r: Option<nat>)
    ensures r.Some? ==> r.value < |objects| && objects[r.value].Q?
                        && forall j :: 0 <= j < r.value ==> !objects[j].Q?
    ensures r.None? ==> forall j :: 0 <= j < |objects| ==> !objects[j].Q?
  {
    if |objects| == 0 then None
    else if objects[0].Q? then Some(0)
    else
      var r := FirstQ(objects[1..]);
      if r.Some? then Some(r.value + 1) else None
  }

  /** `self.combine(other, conjunction)` for a `CompoundQ`
      `Compound(objects, conj)`. Under the same connector a `Q` is folded
      into the first `Q` member and a `CompoundQ` is spliced in; an empty
      result of either means `other` is appended. A different connector
      nests both. */
  function Combine<L>(objects: seq<Obj<L>>, conj: bool, other: Obj<L>, conjunction: bool): (r: Obj<L>)
    ensures r.Compound? && r.conjunction == conjunction
  {
    if conj == conjunction then
      var folded: seq<Obj<L>> :=
        if other.Q? then
          var idx := FirstQ(objects);
          if idx.Some? then
            var merged := if conj then Both(objects[idx.value].q, other.q) else Either(objects[idx.value].q, other.q);
            objects[idx.value := Q(merged)]
          else []
        else if other.Compound? && other.conjunction == conjunction then objects + other.objects
        else [];
      if |folded| == 0 then Compound(objects + [other], conjunction)
      else Compound(folded, conjunction)
    else Compound([Compound(objects, conj), other], conjunction)
  }

  lemma {:induction false} EvalAllConcat<L>(a: seq<Obj<L>>, b: seq<Obj<L>>, conjunction: bool, holds: L -> bool)
    ensures EvalAll(a + b, conjunction, holds)
            == if conjunction then EvalAll(a, conjunction, holds) && EvalAll(b, conjunction, holds)
               else EvalAll(a, conjunction, holds) || EvalAll(b, conjunction, holds)
    decreases |a|
  {
    if |a| == 0 {
      assert a + b == b;
    } else {
      assert (a + b)[1..] == a[1..] + b;
      EvalAllConcat(a[1..], b, conjunction, holds);
    }
  }

  lemma {:induction false} EvalAllUpdate<L>(objects: seq<Obj<L>>, i: nat, o: Obj<L>, conjunction: bool, holds: L -> bool)
    requires i < |objects|
    ensures EvalAll(objects[i := o], conjunction, holds)
            == if conjunction then EvalAll(objects[..i], conjunction, holds) && Eval(o, holds) && EvalAll(objects[i + 1..], conjunction, holds)
               else EvalAll(objects[..i], conjunction, holds) || Eval(o, holds) || EvalAll(objects[i + 1..], conjunction, holds)
  {
    assert objects[i := o] == objects[..i] + ([o] + objects[i + 1..]);
    EvalAllConcat(objects[..i], [o] + objects[i + 1..], conjunction, holds);
    EvalAllConcat([o], objects[i + 1..], conjunction, holds);
    assert objects == objects[..i] + ([objects[i]] + objects[i + 1..]);
  }

  /** Whatever path `combine` takes, the result holds exactly when both
      (for `&`) or either (for `|`) of the operands hold. */
  lemma CombineMeaning<L>(objects: seq<Obj<L>>, conj: bool, other: Obj<L>, conjunction: bool, holds: L -> bool)
    ensures Eval(Combine(objects, conj, other, conjunction), holds)
            == if conjunction then Eval(Compound(objects, conj), holds) && Eval(other, holds)
               else Eval(Compound(objects, conj), holds) || Eval(other, holds)
  {
    var r := Combine(objects, conj, other, conjunction);
    EvalAllConcat(objects, [other], conjunction, holds);
    assert EvalAll([other], conjunction, holds) == Eval(other, holds) by {
      assert [other][1..] == [];
    }
    if conj != conjunction {
      assert r.objects == [Compound(objects, conj), other];
      assert r.objects[1..] == [other];
    } else if other.Q? && FirstQ(objects).Some? {
      var i := FirstQ(objects).value;
      EvalAllUpdate(objects, i, objects[i], conjunction, holds);
      assert objects[i := objects[i]] == objects;
      var merged := if conj then Both(objects[i].q, other.q) else Either(objects[i].q, other.q);
      EvalAllUpdate(objects, i, Q(merged), conjunction, holds);
      assert r.objects == objects[i := Q(merged)];
    } else if other.Compound? && other.conjunction == conjunction {
      EvalAllConcat(objects, other.objects, conjunction, holds);
      if |objects + other.objects| == 0 {
        assert objects == [] && other.objects == [];
        assert r.objects == [other];
      } else {
        assert r.objects == objects + other.objects;
      }
    } else {
      assert r.objects == objects + [other];
    }
  }

  /** Folding a `Q` copies the member list and changes only the slot of
      the first `Q` member; otherwise the members keep their order. */
  lemma CombineShape<L>(objects: seq<Obj<L>>, conj: bool, other: Obj<L>, conjunction: bool)
    ensures var r := Combine(objects, conj, other, conjunction);
            && (conj != conjunction ==> r.objects == [Compound(objects, conj), other])
            && (conj == conjunction && other.Q? && FirstQ(objects).Some? ==>
                  |r.objects| == |objects|
                  && forall j :: 0 <= j < |objects| && j != FirstQ(objects).value ==> r.objects[j] == objects[j])
            && (conj == conjunction && other.Compound? && other.conjunction == conjunction && |objects + other.objects| > 0 ==>
                  r.objects == objects + other.objects)
            && (conj == conjunction && !other.Q? && !(other.Compound? && other.conjunction == conjunction) ==>
                  r.objects == objects + [other])
  {
  }

  // ---------------------------------------------------------------------
  // forge_join and remove_join
  // ---------------------------------------------------------------------

  /** The key of `join_map`: `(lhs, table, lhs_col, col)`. */
  datatype JoinIdent<T> = JoinIdent(lhs: T, table: T, lhsCol: T, col: T)

  datatype JoinType = Inner | LeftOuter

  /** An `alias_map` entry: `(table, alias, join_type, lhs_alias, lhs_col,
      col, nullable)`. */
  datatype Join<T> = Join(table: T, alias: T, joinType: JoinType, lhsAlias: T, lhsCol: T, col: T, nullable: bool)

  /** The position of the first occurrence of `x`. */
  function FirstIndex<T(==)>(xs: seq<T>, x: T): (i: nat)
    requires x in xs
    ensures i < |xs| && xs[i] == x && x !in xs[..i]
  {
    if xs[0] == x then 0
    else
      var i := FirstIndex(xs[1..], x);
      assert xs[..i + 1] == [xs[0]] + xs[1..][..i];
      i + 1
  }

  /** The first occurrence of `x` removed, as `list.remove` does: what
      comes before it stays, what comes after moves down by one. */
  function RemoveFirst<T(==)>(xs: seq<T>, x: T): (r: seq<T>)
    requires x in xs
    ensures |r| == |xs| - 1
    ensures forall j :: 0 <= j < |r| ==> r[j] == if j < FirstIndex(xs, x) then xs[j] else xs[j + 1]
  {
    var i := FirstIndex(xs, x);
    xs[..i] + xs[i + 1..]
  }

  /** The join tables of a Django query. */
  class JoinQuery<T(==)> {
    var joinMap: map<JoinIdent<T>, seq<T>>
    var revJoinMap: map<T, JoinIdent<T>>
    var aliasMap: map<T, Join<T>>
    var tables: seq<T>
    var aliasRefcount: map<T, int>

    ghost predicate Consistent()
      reads this
    {
      MapsAgree(joinMap, revJoinMap)
    }

    /** `alias` has a `rev_join_map` entry whose `join_map` entry lists it:
        the lookups and the `list.remove` of `remove_join` succeed. */
    ghost predicate Listed(alias: T)
      reads this
    {
      alias in revJoinMap && revJoinMap[alias] in joinMap && alias in joinMap[revJoinMap[alias]]
    }

    constructor()
      ensures Consistent()
      ensures joinMap == map[] && revJoinMap == map[] && aliasMap == map[] && tables == [] && aliasRefcount == map[]
    {
      joinMap := map[];
      revJoinMap := map[];
      aliasMap := map[];
      tables := [];
      aliasRefcount := map[];
    }

    /** `forge_join(query, table, alias, lhs, lhs_alias, lhs_col, col,
        nullable, join_type)`: records the join under its alias and
        appends the alias to the entry of its identity; a missing join
        type is `INNER`. A fresh alias keeps the two maps consistent. */
    method ForgeJoin(table: T, alias: T, lhs: T, lhsAlias: T, lhsCol: T, col: T, nullable: bool,
                     joinType: Option<JoinType>)
      modifies this
      ensures var t := JoinIdent(lhs, table, lhsCol, col);
              && aliasMap == old(aliasMap)[alias := Join(table, alias, if joinType.Some? then joinType.value else Inner,
                                                        lhsAlias, lhsCol, col, nullable)]
              && joinMap == old(joinMap)[t := (if t in old(joinMap) then old(joinMap)[t] else []) + [alias]]
              && revJoinMap == old(revJoinMap)[alias := t]
      ensures tables == old(tables) && aliasRefcount == old(aliasRefcount)
      ensures old(Consistent()) && alias !in old(revJoinMap) ==> Consistent()
    {
      var jt := if joinType.Some? then joinType.value else Inner;
      aliasMap := aliasMap[alias := Join(table, alias, jt, lhsAlias, lhsCol, col, nullable)];
      var t := JoinIdent(lhs, table, lhsCol, col);
      if t in joinMap {
        joinMap := joinMap[t := joinMap[t] + [alias]];
      } else {
        assert [] + [alias] == [alias];
        joinMap := joinMap[t := [alias]];
      }
      revJoinMap := revJoinMap[alias := t];
      if old(Consistent()) && alias !in old(revJoinMap) {
        ForgeKeepsConsistent(old(joinMap), old(revJoinMap), t, alias);
      }
    }

    /** `remove_join(query, alias, traceless)`: removes the alias from its
        `join_map` entry and deletes its `rev_join_map` and `alias_map`
        entries; `traceless` also drops it from `tables` and
        `alias_refcount`. Each lookup that fails raises, leaving what was
        already changed. */
    method RemoveJoin(alias: T, traceless: bool) returns (r: Result<(), Error>)
      modifies this
      ensures !old(Listed(alias)) ==>
                && r == (if alias in old(revJoinMap) && old(revJoinMap)[alias] in old(joinMap)
                         then Failure(ValueError) else Failure(KeyError))
                && joinMap == old(joinMap) && revJoinMap == old(revJoinMap) && aliasMap == old(aliasMap)
                && tables == old(tables) && aliasRefcount == old(aliasRefcount)
      ensures old(Listed(alias)) ==>
                var t := old(revJoinMap)[alias];
                && joinMap == old(joinMap)[t := RemoveFirst(old(joinMap)[t], alias)]
                && revJoinMap == old(revJoinMap) - {alias}
                && aliasMap == old(aliasMap) - {alias}
      ensures old(Listed(alias)) && alias !in old(aliasMap) ==>
                r == Failure(KeyError) && tables == old(tables) && aliasRefcount == old(aliasRefcount)
      ensures old(Listed(alias)) && alias in old(aliasMap) && !traceless ==>
                r == Success(()) && tables == old(tables) && aliasRefcount == old(aliasRefcount)
      ensures old(Listed(alias)) && alias in old(aliasMap) && traceless && alias !in old(tables) ==>
                r == Failure(ValueError) && tables == old(tables) && aliasRefcount == old(aliasRefcount)
      ensures old(Listed(alias)) && alias in old(aliasMap) && traceless && alias in old(tables) ==>
                && tables == RemoveFirst(old(tables), alias)
                && r == (if alias in old(aliasRefcount) then Success(()) else Failure(KeyError))
                && aliasRefcount == old(aliasRefcount) - {alias}
      ensures r.Success? <==>
                && old(Listed(alias))
                && alias in old(aliasMap)
                && (traceless ==> alias in old(tables) && alias in old(aliasRefcount))
      ensures r.Success? && old(Consistent()) ==> Consistent()
    {
      if alias !in revJoinMap {
        return Failure(KeyError);
      }
      var t := revJoinMap[alias];
      if t !in joinMap {
        return Failure(KeyError);
      }
      var jm := joinMap[t];
      if alias !in jm {
        return Failure(ValueError);
      }
      joinMap := joinMap[t := RemoveFirst(jm, alias)];
      revJoinMap := revJoinMap - {alias};
      if alias !in aliasMap {
        return Failure(KeyError);
      }
      aliasMap := aliasMap - {alias};
      if traceless {
        if alias !in tables {
          return Failure(ValueError);
        }
        tables := RemoveFirst(tables, alias);
        if alias !in aliasRefcount {
          return Failure(KeyError);
        }
        aliasRefcount := aliasRefcount - {alias};
      }
      r := Success(());
      if old(Consistent()) {
        RemoveKeepsConsistent(old(joinMap), old(revJoinMap), alias);
      }
    }
  }

  /** `join_map` and `rev_join_map` describe each other: every alias of a
      `join_map` entry maps back to it, once, and every `rev_join_map`
      entry is listed. */
  ghost predicate MapsAgree<T>(joinMap: map<JoinIdent<T>, seq<T>>, revJoinMap: map<T, JoinIdent<T>>)
  {
    && (forall a :: a in revJoinMap ==> revJoinMap[a] in joinMap && a in joinMap[revJoinMap[a]])
    && (forall t, i :: t in joinMap && 0 <= i < |joinMap[t]| ==>
          joinMap[t][i] in revJoinMap && revJoinMap[joinMap[t][i]] == t)
    && (forall t, i, j :: t in joinMap && 0 <= i < j < |joinMap[t]| ==> joinMap[t][i] != joinMap[t][j])
  }

  /** Forging a join under a fresh alias keeps the maps consistent. */
  lemma ForgeKeepsConsistent<T>(joinMap: map<JoinIdent<T>, seq<T>>, revJoinMap: map<T, JoinIdent<T>>, t: JoinIdent<T>, alias: T)
    requires MapsAgree(joinMap, revJoinMap) && alias !in revJoinMap
    ensures MapsAgree(joinMap[t := (if t in joinMap then joinMap[t] else []) + [alias]], revJoinMap[alias := t])
  {
    var jm := joinMap[t := (if t in joinMap then joinMap[t] else []) + [alias]];
    var rj := revJoinMap[alias := t];
    forall u, i | u in jm && 0 <= i < |jm[u]| ensures jm[u][i] in rj && rj[jm[u][i]] == u {
      if u == t && i == |jm[u]| - 1 {
      } else {
        assert jm[u][i] == joinMap[u][i];
      }
    }
    forall u, i, j | u in jm && 0 <= i < j < |jm[u]| ensures jm[u][i] != jm[u][j] {
      if u == t && j == |jm[u]| - 1 {
        assert jm[u][i] == joinMap[u][i];
      }
    }
  }

  /** Removing a join keeps the maps consistent. */
  lemma RemoveKeepsConsistent<T>(joinMap: map<JoinIdent<T>, seq<T>>, revJoinMap: map<T, JoinIdent<T>>, alias: T)
    requires MapsAgree(joinMap, revJoinMap)
    requires alias in revJoinMap && revJoinMap[alias] in joinMap && alias in joinMap[revJoinMap[alias]]
    ensures var t := revJoinMap[alias];
            MapsAgree(joinMap[t := RemoveFirst(joinMap[t], alias)], revJoinMap - {alias})
  {
    var t := revJoinMap[alias];
    var jm := joinMap[t := RemoveFirst(joinMap[t], alias)];
    var rj := revJoinMap - {alias};
    RemovedListed(joinMap, revJoinMap, alias);
    forall u, i | u in jm && 0 <= i < |jm[u]| ensures jm[u][i] in rj && rj[jm[u][i]] == u {
      RemovedMapsBack(joinMap, revJoinMap, alias, u, i);
    }
    forall u, i, j | u in jm && 0 <= i < j < |jm[u]| ensures jm[u][i] != jm[u][j] {
      if u == t {
        RemovedDistinct(joinMap[t], alias, i, j);
      }
    }
  }

  lemma RemovedDistinct<T>(xs: seq<T>, alias: T, i: nat, j: nat)
    requires alias in xs && forall a, b :: 0 <= a < b < |xs| ==> xs[a] != xs[b]
    requires i < j < |RemoveFirst(xs, alias)|
    ensures RemoveFirst(xs, alias)[i] != RemoveFirst(xs, alias)[j]
  {
    var k := FirstIndex(xs, alias);
    var si := if i < k then i else i + 1;
    var sj := if j < k then j else j + 1;
    assert RemoveFirst(xs, alias)[i] == xs[si] && RemoveFirst(xs, alias)[j] == xs[sj];
  }

  /** After removal, every other alias of `rev_join_map` is still listed. */
  lemma RemovedListed<T>(joinMap: map<JoinIdent<T>, seq<T>>, revJoinMap: map<T, JoinIdent<T>>, alias: T)
    requires MapsAgree(joinMap, revJoinMap)
    requires alias in revJoinMap && revJoinMap[alias] in joinMap && alias in joinMap[revJoinMap[alias]]
    ensures var t := revJoinMap[alias];
            var jm := joinMap[t := RemoveFirst(joinMap[t], alias)];
            forall a :: a in revJoinMap && a != alias ==> revJoinMap[a] in jm && a in jm[revJoinMap[a]]
  {
    var t := revJoinMap[alias];
    var xs := joinMap[t];
    var k := FirstIndex(xs, alias);
    var removed := RemoveFirst(xs, alias);
    forall a | a in revJoinMap && a != alias && revJoinMap[a] == t ensures a in removed {
      var i :| 0 <= i < |xs| && xs[i] == a;
      if i < k {
        assert removed[i] == a;
      } else {
        assert removed[i - 1] == a;
      }
    }
  }

  /** After removal, every listed alias still maps back to its entry. */
  lemma RemovedMapsBack<T>(joinMap: map<JoinIdent<T>, seq<T>>, revJoinMap: map<T, JoinIdent<T>>, alias: T,
                           u: JoinIdent<T>, i: nat)
    requires MapsAgree(joinMap, revJoinMap)
    requires alias in revJoinMap && revJoinMap[alias] in joinMap && alias in joinMap[revJoinMap[alias]]
    requires var jm := joinMap[revJoinMap[alias] := RemoveFirst(joinMap[revJoinMap[alias]], alias)];
             u in jm && i < |jm[u]|
    ensures var jm := joinMap[revJoinMap[alias] := RemoveFirst(joinMap[revJoinMap[alias]], alias)];
            var rj := revJoinMap - {alias};
            jm[u][i] in rj && rj[jm[u][i]] == u
  {
    var t := revJoinMap[alias];
    var xs := joinMap[t];
    if u == t {
      var k := FirstIndex(xs, alias);
      var src := if i < k then i else i + 1;
      assert RemoveFirst(xs, alias)[i] == xs[src];
      assert xs[k] == alias;
    } else {
      assert joinMap[u][i] in revJoinMap;
    }
  }

  // ---------------------------------------------------------------------
  // get_sub_models
  // ---------------------------------------------------------------------

  /** The `_meta` flags the walk reads. */
  datatype Meta = Meta(isAbstract: bool, isProxy: bool, isVirtual: bool)

  /** A model class with the classes `__subclasses__()` returns. */
  datatype ClassTree<M> = ClassTree(model: M, meta: Meta, subclasses: seq<ClassTree<M>>)

  /** Which subclasses the walk keeps. */
  datatype Filter = Filter(withAbstract: bool, withProxy: bool, withVirtual: bool)

  predicate Passes(f: Filter, m: Meta)
  {
    (f.withAbstract || !m.isAbstract) && (f.withProxy || !m.isProxy) && (f.withVirtual || !m.isVirtual)
  }

  /** The subclasses `_collect_sub_models` adds below `t`: each passing
      subclass, and what lies below it only when `direct` is off; the
      walk always goes on below a subclass that does not pass. */
  function Collected<M(==)>(t: ClassTree<M>, f: Filter, direct: bool): set<M>
    decreases t, 1
  {
    CollectedAll(t.subclasses, f, direct)
  }

  function CollectedAll<M(==)>(ts: seq<ClassTree<M>>, f: Filter, direct: bool): set<M>
    decreases ts, 0
  {
    if |ts| == 0 then {}
    else
      var s := ts[0];
      var here: set<M> := if Passes(f, s.meta) then {s.model} else {};
      var below := if Passes(f, s.meta) && direct then {} else Collected(s, f, direct);
      here + below + CollectedAll(ts[1..], f, direct)
  }

  /** `d` is a proper subclass of `t`, reached through `path` (the classes
      from a direct subclass of `t` down to `d`). */
  ghost predicate PathBelow<M>(t: ClassTree<M>, path: seq<ClassTree<M>>)
    decreases |path|
  {
    |path| > 0 && path[0] in t.subclasses
    && (|path| > 1 ==> PathBelow(path[0], path[1..]))
  }

  /** `path` leads from `t` down to a class `m` that passes the filter;
      with `direct`, no class before it on the way passes. */
  ghost predicate Witness<M>(t: ClassTree<M>, path: seq<ClassTree<M>>, f: Filter, direct: bool, m: M)
  {
    && PathBelow(t, path) && path[|path| - 1].model == m && Passes(f, path[|path| - 1].meta)
    && (direct ==> forall i :: 0 <= i < |path| - 1 ==> !Passes(f, path[i].meta))
  }

  /** Every collected class passes the filter and lies below `t`; with
      `direct`, no class between `t` and it passes. */
  lemma {:induction false} CollectedSound<M>(t: ClassTree<M>, f: Filter, direct: bool, m: M)
    requires m in Collected(t, f, direct)
    ensures exists path :: Witness(t, path, f, direct, m)
    decreases t, 1
  {
    CollectedAllSound(t, t.subclasses, f, direct, m);
  }

  lemma {:induction false} CollectedAllSound<M>(t: ClassTree<M>, ts: seq<ClassTree<M>>, f: Filter, direct: bool, m: M)
    requires forall s :: s in ts ==> s in t.subclasses
    requires m in CollectedAll(ts, f, direct)
    ensures exists path :: Witness(t, path, f, direct, m)
    decreases ts, 0
  {
    var s := ts[0];
    if Passes(f, s.meta) && m == s.model {
      var path := [s];
      assert Witness(t, path, f, direct, m);
    } else if m in (if Passes(f, s.meta) && direct then {} else Collected(s, f, direct)) {
      CollectedSound(s, f, direct, m);
      var p :| Witness(s, p, f, direct, m);
      var path := [s] + p;
      assert path[1..] == p;
      assert PathBelow(t, path);
      forall i | direct && 0 <= i < |path| - 1 ensures !Passes(f, path[i].meta) {
        if i > 0 {
          assert path[i] == p[i - 1];
        }
      }
      assert Witness(t, path, f, direct, m);
    } else {
      CollectedAllSound(t, ts[1..], f, direct, m);
    }
  }

  /** Conversely, every class a witness path reaches is collected. */
  lemma {:induction false} CollectedComplete<M>(t: ClassTree<M>, path: seq<ClassTree<M>>, f: Filter, direct: bool, m: M)
    requires Witness(t, path, f, direct, m)
    ensures m in Collected(t, f, direct)
    decreases |path|
  {
    var s := path[0];
    CollectedAllContains(t.subclasses, s, f, direct);
    if |path| > 1 {
      var p := path[1..];
      forall i | direct && 0 <= i < |p| - 1 ensures !Passes(f, p[i].meta) {
        assert p[i] == path[i + 1];
      }
      assert Witness(s, p, f, direct, m);
      CollectedComplete(s, p, f, direct, m);
    }
  }

  /** What one subclass contributes is part of the walk over all of them. */
  lemma {:induction false} CollectedAllContains<M>(ts: seq<ClassTree<M>>, s: ClassTree<M>, f: Filter, direct: bool)
    requires s in ts
    ensures Passes(f, s.meta) ==> s.model in CollectedAll(ts, f, direct)
    ensures !(Passes(f, s.meta) && direct) ==> Collected(s, f, direct) <= CollectedAll(ts, f, direct)
    decreases |ts|
  {
    if ts[0] != s {
      CollectedAllContains(ts[1..], s, f, direct);
    }
  }

  /** `_collect_sub_models(model, abstract, proxy, virtual, direct,
      sub_models)`: adds the collected subclasses to `subModels`. */
  method CollectSubModels<M(==)>(t: ClassTree<M>, f: Filter, direct: bool, subModels: set<M>) returns (r: set<M>)
    ensures r == subModels + Collected(t, f, direct)
    decreases t, 1
  {
    r := subModels;
    var i := 0;
    while i < |t.subclasses|
      invariant 0 <= i <= |t.subclasses|
      invariant r + CollectedAll(t.subclasses[i..], f, direct) == subModels + Collected(t, f, direct)
    {
      var s := t.subclasses[i];
      assert t.subclasses[i..][0] == s && t.subclasses[i..][1..] == t.subclasses[i + 1..];
      if Passes(f, s.meta) {
        r := r + {s.model};
        if direct {
          i := i + 1;
          continue;
        }
      }
      r := CollectSubModels(s, f, direct, r);
      i := i + 1;
    }
  }

  /** The cache key of `get_sub_models` as written: `virtual` is not part
      of it. */
  datatype CacheKey<M> = CacheKey(model: ClassTree<M>, withAbstract: bool, withProxy: bool, direct: bool)

  /** `get_sub_models` with its module-level cache `_sub_models_cache`. */
  class SubModelsCache<M(==)> {
    var cache: map<CacheKey<M>, set<M>>

    constructor()
      ensures cache == map[]
    {
      cache := map[];
    }

    /** `get_sub_models(model, abstract, proxy, virtual, direct)`: a cached
        result under `(model, abstract, proxy, direct)`, else the walk's
        result, stored under that key. */
    method GetSubModels(t: ClassTree<M>, f: Filter, direct: bool) returns (r: set<M>)
      modifies this
      ensures var key := CacheKey(t, f.withAbstract, f.withProxy, direct);
              && (key in old(cache) ==> r == old(cache)[key] && cache == old(cache))
              && (key !in old(cache) ==> r == Collected(t, f, direct) && cache == old(cache)[key := r])
    {
      var key := CacheKey(t, f.withAbstract, f.withProxy, direct);
      if key !in cache {
        var found := CollectSubModels(t, f, direct, {});
        cache := cache[key := found];
      }
      r := cache[key];
    }
  }

  /** A model with one virtual subclass: asking first without and then
      with virtual models gives the same key, yet the walks differ, so the
      second call returns the stale set. */
  lemma VirtualIgnoredByCache()
    ensures var sub := ClassTree(1, Meta(false, false, true), []);
            var t := ClassTree(0, Meta(false, false, false), [sub]);
            && CacheKey(t, false, false, false) == CacheKey(t, Filter(false, false, true).withAbstract, Filter(false, false, true).withProxy, false)
            && Collected(t, Filter(false, false, false), false) == {}
            && Collected(t, Filter(false, false, true), false) == {1}
  {
    var sub := ClassTree(1, Meta(false, false, true), []);
    var t := ClassTree(0, Meta(false, false, false), [sub]);
    assert CollectedAll(t.subclasses[1..], Filter(false, false, true), false) == {};
    assert CollectedAll(t.subclasses[1..], Filter(false, false, false), false) == {};
  }

  /** The cache key with `virtual` included. */
  datatype FullCacheKey<M> = FullCacheKey(model: ClassTree<M>, withAbstract: bool, withProxy: bool, withVirtual: bool, direct: bool)

  /** `get_sub_models` keyed by every argument: each cached set is the
      walk's result for its key. */
  class FullKeySubModelsCache<M(==)> {
    var cache: map<FullCacheKey<M>, set<M>>

    ghost predicate Valid()
      reads this
    {
      forall key :: key in cache ==>
        cache[key] == Collected(key.model, Filter(key.withAbstract, key.withProxy, key.withVirtual), key.direct)
    }

    constructor()
      ensures Valid() && cache == map[]
    {
      cache := map[];
    }

    method GetSubModels(t: ClassTree<M>, f: Filter, direct: bool) returns (r: set<M>)
      requires Valid()
      modifies this
      ensures Valid()
      ensures r == Collected(t, f, direct)
    {
      var key := FullCacheKey(t, f.withAbstract, f.withProxy, f.withVirtual, direct);
      if key !in cache {
        var found := CollectSubModels(t, f, direct, {});
        cache := cache[key := found];
      }
      r := cache[key];
    }
  }

  // ---------------------------------------------------------------------
  // unordered_pairs
  // ---------------------------------------------------------------------

  /** The pairs `(a, b)` with `b.pk > a.pk` for one `a`, in list order. */
  function PairsWith<O(!new)>(a: O, objects: seq<O>, pk: O -> int): (r: seq<(O, O)>)
    ensures forall p :: p in r <==> p.0 == a && p.1 in objects && pk(p.1) > pk(a)
  {
    if |objects| == 0 then []
    else (if pk(objects[0]) > pk(a) then [(a, objects[0])] else []) + PairsWith(a, objects[1..], pk)
  }

  /** `unordered_pairs(qs)` over the list `objects`: for each `a`, each
      later-keyed `b`. */
  function UnorderedPairs<O(!new)>(objects: seq<O>, all: seq<O>, pk: O -> int): (r: seq<(O, O)>)
    ensures forall p :: p in r <==> p.0 in objects && p.1 in all && pk(p.1) > pk(p.0)
  {
    if |objects| == 0 then []
    else PairsWith(objects[0], all, pk) + UnorderedPairs(objects[1..], all, pk)
  }

  ghost predicate Distinct<T>(xs: seq<T>)
  {
    forall i, j :: 0 <= i < j < |xs| ==> xs[i] != xs[j]
  }

  lemma {:induction false} PairsWithDistinct<O(!new)>(a: O, objects: seq<O>, pk: O -> int)
    requires Distinct(objects)
    ensures Distinct(PairsWith(a, objects, pk))
  {
    if |objects| > 0 {
      PairsWithDistinct(a, objects[1..], pk);
      var head: seq<(O, O)> := if pk(objects[0]) > pk(a) then [(a, objects[0])] else [];
      var tail := PairsWith(a, objects[1..], pk);
      forall i, j | 0 <= i < |head| && 0 <= j < |tail| ensures head[i] != tail[j] {
        assert tail[j] in tail;
        assert objects[0] !in objects[1..] by {
          forall k | 0 <= k < |objects[1..]| ensures objects[1..][k] != objects[0] {
            assert objects[1..][k] == objects[k + 1];
          }
        }
      }
      DistinctConcat(head, tail);
    }
  }

  lemma DistinctConcat<T>(a: seq<T>, b: seq<T>)
    requires Distinct(a) && Distinct(b)
    requires forall i, j :: 0 <= i < |a| && 0 <= j < |b| ==> a[i] != b[j]
    ensures Distinct(a + b)
  {
    forall i, j | 0 <= i < j < |a + b| ensures (a + b)[i] != (a + b)[j] {
      if j < |a| {
      } else if i >= |a| {
        assert (a + b)[i] == b[i - |a|] && (a + b)[j] == b[j - |a|];
      } else {
        assert (a + b)[j] == b[j - |a|];
      }
    }
  }

  /** Over a list of distinct objects, each pair `(a, b)` with
      `a.pk < b.pk` comes out exactly once: it is in the output, and no
      entry of the output repeats. */
  lemma {:induction false} UnorderedPairsOnce<O(!new)>(objects: seq<O>, all: seq<O>, pk: O -> int)
    requires Distinct(objects) && Distinct(all)
    ensures Distinct(UnorderedPairs(objects, all, pk))
  {
    if |objects| > 0 {
      UnorderedPairsOnce(objects[1..], all, pk);
      PairsWithDistinct(objects[0], all, pk);
      var head := PairsWith(objects[0], all, pk);
      var tail := UnorderedPairs(objects[1..], all, pk);
      forall i, j | 0 <= i < |head| && 0 <= j < |tail| ensures head[i] != tail[j] {
        assert head[i] in head && tail[j] in tail;
        assert objects[0] !in objects[1..] by {
          forall k | 0 <= k < |objects[1..]| ensures objects[1..][k] != objects[0] {
            assert objects[1..][k] == objects[k + 1];
          }
        }
      }
      DistinctConcat(head, tail);
    }
  }
}
