/** The "has tag t" predicate of `ManyRelatedJoinQ`, held in conjunctive
    normal form: a set of clauses, each a set of possibly negated terms, plus
    a tri-state `trivial` flag.

    A formula is modelled as an immutable value (`Formula`): every public
    operation of the source builds a fresh object through `clone`, and
    `optimize` only ever runs on that fresh object before it is returned.
    The step-by-step parts of the source keep their imperative form:
    `_optimize` and `cross_product` are methods with loops over sets, and the
    class `ManyRelatedJoinQ` updates `trivial` and `conjunction` in place in
    its `Optimize` method. Each is proved equal to the function that the rest
    of the model uses. */
module ManyRelatedJoin {
  import opened Wrappers
  import opened PythonOrder

  // ---------------------------------------------------------------------
  // Data model
  // ---------------------------------------------------------------------

  /** `(term, negated)`. */
  datatype Literal<T> = Literal(term: T, negated: bool)

  /** A clause is the disjunction of its literals. */
  type Clause<T(==)> = set<Literal<T>>

  /** A conjunction is the conjunction of its clauses. */
  type Conjunction<T(==)> = set<Clause<T>>

  /** The `trivial` flag: `None`, `True` or `False`. */
  datatype Trivial = NonTrivial | AlwaysTrue | AlwaysFalse

  datatype Formula<T(==)> = Formula(trivial: Trivial, conjunction: Conjunction<T>)

  /** What a combinator can be given: a bare term (an instance of the term
      model), another formula, or anything else. */
  datatype Operand<T(==)> = Term(term: T) | Query(q: Formula<T>) | Unsupported

  datatype Error =
    | TypeError
    | ValueError(message: string)
    | DoesNotExist(key: string)
    | StopIteration

  // ---------------------------------------------------------------------
  // Meaning of a formula under an assignment of truth values to terms
  // ---------------------------------------------------------------------

  predicate LiteralHolds<T(==)>(l: Literal<T>, a: T -> bool) {
    a(l.term) != l.negated
  }

  predicate ClauseHolds<T(==)>(d: Clause<T>, a: T -> bool) {
    exists l :: l in d && LiteralHolds(l, a)
  }

  /** Every literal of `d` holds (the meaning of `d` read as a conjunction). */
  predicate AllHold<T(==)>(d: Clause<T>, a: T -> bool) {
    forall l :: l in d ==> LiteralHolds(l, a)
  }

  predicate Holds<T(==)>(c: Conjunction<T>, a: T -> bool) {
    forall d :: d in c ==> ClauseHolds(d, a)
  }

  predicate Eval<T(==)>(q: Formula<T>, a: T -> bool) {
    match q.trivial
    case AlwaysTrue => true
    case AlwaysFalse => false
    case NonTrivial => Holds(q.conjunction, a)
  }

  /** A trivial formula carries no clauses. */
  predicate Valid<T(==)>(q: Formula<T>) {
    q.trivial != NonTrivial ==> q.conjunction == {}
  }

  function NegateLiteral<T(==)>(l: Literal<T>): Literal<T> {
    Literal(l.term, !l.negated)
  }

  /** `(a | ~a)`: the clause holds under every assignment. */
  predicate Tautological<T(==)>(d: Clause<T>) {
    exists l :: l in d && NegateLiteral(l) in d
  }

  /** No clause is a proper subset of another. */
  predicate Antichain<T(==)>(c: Conjunction<T>) {
    forall d, e :: d in c && e in c ==> !(d < e)
  }

  /** The canonical form that `optimize` establishes. */
  predicate Canonical<T(==)>(q: Formula<T>) {
    && Valid(q)
    && (q.trivial == NonTrivial ==>
          && q.conjunction != {}
          && {} !in q.conjunction
          && Antichain(q.conjunction)
          && forall d :: d in q.conjunction ==> !Tautological(d))
  }

  // ---------------------------------------------------------------------
  // `_optimize`: drop tautologies and clauses that have a proper subset
  // ---------------------------------------------------------------------

  /** The clauses `_optimize` keeps. A clause is dropped when it is a
      tautology or some clause of the input is a proper subset of it. */
  function Pruned<T(==)>(c: Conjunction<T>): (r: Conjunction<T>)
    ensures r <= c
    ensures Antichain(r)
    ensures forall d :: d in r ==> !Tautological(d)
  {
    set d | d in c && !Tautological(d) && !(exists e :: e in c && e < d)
  }

  /** Below every clause of `c` lies a clause of `c` that has no proper
      subset in `c`. */
  lemma {:induction false} MinimalBelow<T>(c: Conjunction<T>, e: Clause<T>)
    requires e in c
    ensures exists m :: m in c && m <= e && forall f :: f in c ==> !(f < m)
    decreases |e|
  {
    if f :| f in c && f < e {
      ProperSubsetSmaller(f, e);
      MinimalBelow(c, f);
    }
  }

  lemma SubsetOfNonTautological<T>(m: Clause<T>, d: Clause<T>)
    requires m <= d && !Tautological(d)
    ensures !Tautological(m)
  {
  }

  /** A clause with a proper subset in `c` has one among the kept clauses. */
  lemma {:induction false} KeptBelow<T>(c: Conjunction<T>, d: Clause<T>, e: Clause<T>)
    requires d in c && e in c && e < d && !Tautological(d)
    ensures exists m :: m in Pruned(c) && m < d
  {
    MinimalBelow(c, e);
    var m :| m in c && m <= e && forall f :: f in c ==> !(f < m);
    SubsetOfNonTautological(m, d);
    assert m in Pruned(c);
  }

  /** The comments of `_optimize`: `(a | ~a) <=> True` and `a => (a | b)`,
      so dropping those clauses keeps the truth value. */
  lemma {:induction false} PrunedPreservesMeaning<T>(c: Conjunction<T>, a: T -> bool)
    ensures Holds(Pruned(c), a) == Holds(c, a)
  {
    if Holds(Pruned(c), a) {
      forall d | d in c ensures ClauseHolds(d, a) {
        if Tautological(d) {
          var l :| l in d && NegateLiteral(l) in d;
          assert LiteralHolds(l, a) || LiteralHolds(NegateLiteral(l), a);
        } else if e :| e in c && e < d {
          KeptBelow(c, d, e);
          var m :| m in Pruned(c) && m < d;
          assert ClauseHolds(m, a);
          var l :| l in m && LiteralHolds(l, a);
          assert l in d;
        } else {
          assert d in Pruned(c);
        }
      }
    }
  }

  lemma ProperSubsetSmaller<X>(f: set<X>, e: set<X>)
    requires f < e
    ensures |f| < |e|
  {
    assert e == f + (e - f);
    assert f * (e - f) == {};
  }

  /** The inner loop of `_optimize` that looks for a literal together with
      its negation. */
  method IsTautology<T(==)>(disj: Clause<T>) returns (found: bool)
    ensures found == Tautological(disj)
  {
    found := false;
    var lits := disj;
    while lits != {}
      invariant lits <= disj
      invariant forall l :: l in disj - lits ==> NegateLiteral(l) !in disj
      decreases |lits|
    {
      var l :| l in lits;
      if NegateLiteral(l) in disj {
        found := true;
        return;
      }
      lits := lits - {l};
    }
  }

  /** The inner loop of `_optimize` that looks for a proper subset of `disj`
      among the clauses kept so far. */
  method HasProperSubset<T(==)>(conj: Conjunction<T>, disj: Clause<T>) returns (found: bool)
    ensures found == exists d :: d in conj && d < disj
  {
    found := false;
    var others := conj;
    while others != {}
      invariant others <= conj
      invariant forall d :: d in conj - others ==> !(d < disj)
      decreases |others|
    {
      var d :| d in others;
      if d < disj {
        found := true;
        return;
      }
      others := others - {d};
    }
  }

  /** `_optimize`: iterates over the input while removing clauses from a
      copy of it. The result does not depend on the iteration order. */
  method OptimizeClauses<T(==)>(conjunction: Conjunction<T>) returns (conj: Conjunction<T>)
    ensures conj == Pruned(conjunction)
  {
    conj := conjunction;
    var todo := conjunction;
    while todo != {}
      invariant todo <= conjunction
      invariant conj == todo + Pruned(conjunction)
      decreases |todo|
    {
      var disj :| disj in todo;
      // (a | ~a) <=> True
      var removed := IsTautology(disj);
      if removed {
        conj := conj - {disj};
      } else {
        // a => (a | b)
        removed := HasProperSubset(conj, disj);
        if removed {
          conj := conj - {disj};
        } else if e :| e in conjunction && e < disj {
          KeptBelow(conjunction, disj, e);
          assert false;
        }
      }
      todo := todo - {disj};
    }
  }

  // ---------------------------------------------------------------------
  // `cross_product` and `_negate`
  // ---------------------------------------------------------------------

  /** One round of `cross_product`: extend every partial pick by one
      literal of `d`. */
  function Step<T(==)>(r: Conjunction<T>, d: Clause<T>): Conjunction<T> {
    set t, x | t in r && x in d :: t + {x}
  }

  /** `cross_product` started from the partial picks `r` over the clauses
      `s`: every result picks one literal from each clause of `s`. */
  ghost function Product<T>(r: Conjunction<T>, s: set<Clause<T>>): Conjunction<T>
    decreases |s|
  {
    if s == {} then r
    else
      var d :| d in s;
      Product(Step(r, d), s - {d})
  }

  lemma StepCommutesOneWay<T>(r: Conjunction<T>, d1: Clause<T>, d2: Clause<T>)
    ensures Step(Step(r, d1), d2) <= Step(Step(r, d2), d1)
  {
    forall z | z in Step(Step(r, d1), d2) ensures z in Step(Step(r, d2), d1) {
      var u, y :| u in Step(r, d1) && y in d2 && z == u + {y};
      var t, x :| t in r && x in d1 && u == t + {x};
      assert t + {y} in Step(r, d2);
      assert z == (t + {y}) + {x};
    }
  }

  lemma StepCommutes<T>(r: Conjunction<T>, d1: Clause<T>, d2: Clause<T>)
    ensures Step(Step(r, d1), d2) == Step(Step(r, d2), d1)
  {
    StepCommutesOneWay(r, d1, d2);
    StepCommutesOneWay(r, d2, d1);
  }

  /** The order in which `cross_product` visits its arguments does not
      matter: any clause may be taken first. */
  lemma {:induction false} ProductPick<T>(r: Conjunction<T>, s: set<Clause<T>>, d: Clause<T>)
    requires d in s
    ensures Product(r, s) == Product(Step(r, d), s - {d})
    decreases |s|
  {
    var e :| e in s && Product(r, s) == Product(Step(r, e), s - {e});
    if e != d {
      calc {
        Product(r, s);
        Product(Step(r, e), s - {e});
        { ProductPick(Step(r, e), s - {e}, d); assert s - {e} - {d} == s - {d} - {e}; }
        Product(Step(Step(r, e), d), s - {d} - {e});
        { StepCommutes(r, e, d); }
        Product(Step(Step(r, d), e), s - {d} - {e});
        { ProductPick(Step(r, d), s - {d}, e); }
        Product(Step(r, d), s - {d});
      }
    }
  }

  /** Read as a conjunction of clauses, one round adds "or all of `d`". */
  lemma StepHolds<T>(r: Conjunction<T>, d: Clause<T>, a: T -> bool)
    ensures Holds(Step(r, d), a) == (Holds(r, a) || AllHold(d, a))
  {
    if !Holds(r, a) && !AllHold(d, a) {
      var t :| t in r && !ClauseHolds(t, a);
      var x :| x in d && !LiteralHolds(x, a);
      assert t + {x} in Step(r, d) && !ClauseHolds(t + {x}, a);
    }
    if Holds(r, a) || AllHold(d, a) {
      forall z | z in Step(r, d) ensures ClauseHolds(z, a) {
        var t, x :| t in r && x in d && z == t + {x};
        if Holds(r, a) {
          var l :| l in t && LiteralHolds(l, a);
          assert l in z;
        } else {
          assert x in z && LiteralHolds(x, a);
        }
      }
    }
  }

  lemma {:induction false} ProductHolds<T>(r: Conjunction<T>, s: set<Clause<T>>, a: T -> bool)
    ensures Holds(Product(r, s), a) == (Holds(r, a) || exists d :: d in s && AllHold(d, a))
    decreases |s|
  {
    if s != {} {
      var d :| d in s;
      ProductPick(r, s, d);
      ProductHolds(Step(r, d), s - {d}, a);
      StepHolds(r, d, a);
    }
  }

  /** Every pick made over a non-empty set of clauses contains a literal. */
  lemma {:induction false} ProductNonEmpty<T>(r: Conjunction<T>, s: set<Clause<T>>)
    requires s != {} || {} !in r
    ensures {} !in Product(r, s)
    decreases |s|
  {
    if s != {} {
      var d :| d in s;
      ProductPick(r, s, d);
      assert {} !in Step(r, d);
      ProductNonEmpty(Step(r, d), s - {d});
    }
  }

  /** `cross_product(*lists)`: `result` starts as the one empty pick and is
      extended by every clause in turn. The only caller, `_negate`, passes
      the members of a set, so the model takes that set. */
  method CrossProduct<T(==)>(lists: set<Clause<T>>) returns (result: Conjunction<T>)
    ensures result == Product({{}}, lists)
    ensures forall a :: Holds(result, a) <==> exists d :: d in lists && AllHold(d, a)
  {
    result := {{}};
    var rest := lists;
    while rest != {}
      invariant rest <= lists
      invariant Product(result, rest) == Product({{}}, lists)
      decreases |rest|
    {
      var d :| d in rest;
      ProductPick(result, rest, d);
      result := set t, x | t in result && x in d :: t + {x};
      rest := rest - {d};
    }
    forall a ensures Holds(result, a) <==> exists d :: d in lists && AllHold(d, a) {
      ProductHolds({{}}, lists, a);
      assert !ClauseHolds({}, a);
    }
  }

  function NegateClause<T(==)>(d: Clause<T>): Clause<T> {
    set l | l in d :: NegateLiteral(l)
  }

  /** De Morgan's law: the negated clauses, read as a disjunction of
      conjunctions. */
  function DeMorgan<T(==)>(c: Conjunction<T>): set<Clause<T>> {
    set d | d in c :: NegateClause(d)
  }

  /** `_negate`: De Morgan's law followed by `cross_product`. */
  ghost function Negated<T>(c: Conjunction<T>): Conjunction<T> {
    Product({{}}, DeMorgan(c))
  }

  lemma NegateClauseAllHold<T>(d: Clause<T>, a: T -> bool)
    ensures AllHold(NegateClause(d), a) == !ClauseHolds(d, a)
  {
    if !ClauseHolds(d, a) {
      forall m | m in NegateClause(d) ensures LiteralHolds(m, a) {
        var l :| l in d && m == NegateLiteral(l);
      }
    }
    if ClauseHolds(d, a) {
      var l :| l in d && LiteralHolds(l, a);
      assert NegateLiteral(l) in NegateClause(d);
    }
  }

  /** Under every assignment `_negate(c)` holds exactly when `c` does not. */
  lemma NegatedHolds<T>(c: Conjunction<T>, a: T -> bool)
    ensures Holds(Negated(c), a) == !Holds(c, a)
  {
    ProductHolds({{}}, DeMorgan(c), a);
    assert !ClauseHolds({}, a);
    if !Holds(c, a) {
      var d :| d in c && !ClauseHolds(d, a);
      NegateClauseAllHold(d, a);
      assert NegateClause(d) in DeMorgan(c);
    }
    if e :| e in DeMorgan(c) && AllHold(e, a) {
      var d :| d in c && e == NegateClause(d);
      NegateClauseAllHold(d, a);
    }
  }

  lemma NegatedNonEmptyClauses<T>(c: Conjunction<T>)
    requires c != {}
    ensures {} !in Negated(c)
  {
    var d :| d in c;
    assert NegateClause(d) in DeMorgan(c);
    ProductNonEmpty({{}}, DeMorgan(c));
  }

  /** `_negate`. */
  method NegateClauses<T(==)>(conjunction: Conjunction<T>) returns (conj: Conjunction<T>)
    ensures conj == Negated(conjunction)
    ensures forall a :: Holds(conj, a) == !Holds(conjunction, a)
  {
    // Applying De Morgan's laws gives disjunctive normal form ..
    var disj := set d | d in conjunction :: NegateClause(d);
    // .. and a cross product yields conjunctive normal form again.
    conj := CrossProduct(disj);
    forall a ensures Holds(conj, a) == !Holds(conjunction, a) {
      NegatedHolds(conjunction, a);
    }
  }

  // ---------------------------------------------------------------------
  // What `_optimize` keeps of `_negate`
  // ---------------------------------------------------------------------

  /** `h` meets every clause of `s`. */
  ghost predicate Hits<T>(h: Clause<T>, s: set<Clause<T>>)
  {
    forall d :: d in s ==> exists x :: x in d && x in h
  }

  /** `h` holds the negation of some literal of every clause of `c`, so it
      is false wherever `c` holds. */
  ghost predicate Blocks<T>(h: Clause<T>, c: Conjunction<T>)
  {
    forall d :: d in c ==> exists l :: l in d && NegateLiteral(l) in h
  }

  /** A blocking clause with no smaller blocking clause inside it. */
  ghost predicate MinimalBlock<T>(h: Clause<T>, c: Conjunction<T>)
  {
    Blocks(h, c) && forall g :: Blocks(g, c) && g <= h ==> g == h
  }

  /** Every pick of `cross_product` extends a starting pick and meets every
      clause. */
  lemma {:induction false} ProductHits<T>(r: Conjunction<T>, s: set<Clause<T>>, e: Clause<T>)
    requires e in Product(r, s)
    ensures Hits(e, s) && exists t :: t in r && t <= e
    decreases |s|
  {
    if s == {} {
      assert e in r && e <= e;
    } else {
      var d :| d in s;
      ProductPick(r, s, d);
      ProductHits(Step(r, d), s - {d}, e);
      var u :| u in Step(r, d) && u <= e;
      var t, x :| t in r && x in d && u == t + {x};
      assert t <= e;
      forall d' | d' in s ensures exists y :: y in d' && y in e {
        if d' == d {
          assert x in d' && x in e;
        } else {
          assert d' in s - {d};
        }
      }
    }
  }

  /** A clause that extends a starting pick and meets every clause of `s`
      contains a pick of `cross_product`. */
  lemma {:induction false} ProductBelow<T>(r: Conjunction<T>, s: set<Clause<T>>, t: Clause<T>, h: Clause<T>)
    requires t in r && t <= h && Hits(h, s)
    ensures exists e :: e in Product(r, s) && e <= h
    decreases |s|
  {
    if s == {} {
      assert t in Product(r, s);
    } else {
      var d :| d in s;
      ProductPick(r, s, d);
      var x :| x in d && x in h;
      assert t + {x} in Step(r, d);
      ProductBelow(Step(r, d), s - {d}, t + {x}, h);
    }
  }

  /** `h` meets every clause of `s`, and no smaller clause inside it does. */
  ghost predicate MinimalHit<T>(h: Clause<T>, s: set<Clause<T>>)
  {
    Hits(h, s) && forall g :: Hits(g, s) && g <= h ==> g == h
  }

  /** The picks of `cross_product` that `_optimize` keeps are exactly the
      minimal clauses that meet every clause of `s` and are no tautology. */
  lemma PrunedProduct<T>(s: set<Clause<T>>, h: Clause<T>)
    ensures h in Pruned(Product({{}}, s)) <==> MinimalHit(h, s) && !Tautological(h)
  {
    if h in Pruned(Product({{}}, s)) {
      PrunedProductHit(s, h);
    }
    if MinimalHit(h, s) && !Tautological(h) {
      MinimalHitKept(s, h);
    }
  }

  lemma PrunedProductHit<T>(s: set<Clause<T>>, h: Clause<T>)
    requires h in Pruned(Product({{}}, s))
    ensures MinimalHit(h, s)
  {
    ProductHits({{}}, s, h);
    forall g | Hits(g, s) && g <= h ensures g == h {
      ProductBelow({{}}, s, {}, g);
      var e :| e in Product({{}}, s) && e <= g;
      assert !(e < h);
    }
  }

  lemma MinimalHitKept<T>(s: set<Clause<T>>, h: Clause<T>)
    requires MinimalHit(h, s) && !Tautological(h)
    ensures h in Pruned(Product({{}}, s))
  {
    MinimalHitPicked(s, h);
    forall f | f in Product({{}}, s) ensures !(f < h) {
      ProductHits({{}}, s, f);
    }
  }

  /** A minimal clause meeting every clause of `s` is a pick. */
  lemma MinimalHitPicked<T>(s: set<Clause<T>>, h: Clause<T>)
    requires MinimalHit(h, s)
    ensures h in Product({{}}, s)
  {
    ProductBelow({{}}, s, {}, h);
    var e :| e in Product({{}}, s) && e <= h;
    ProductHits({{}}, s, e);
  }

  /** Meeting every negated clause is blocking. */
  lemma DeMorganHits<T>(c: Conjunction<T>, h: Clause<T>)
    ensures Hits(h, DeMorgan(c)) <==> Blocks(h, c)
  {
    if Hits(h, DeMorgan(c)) {
      forall d | d in c ensures exists l :: l in d && NegateLiteral(l) in h {
        assert NegateClause(d) in DeMorgan(c);
        var x :| x in NegateClause(d) && x in h;
        var l :| l in d && x == NegateLiteral(l);
      }
    }
    if Blocks(h, c) {
      forall e | e in DeMorgan(c) ensures exists x :: x in e && x in h {
        var d :| d in c && e == NegateClause(d);
        var l :| l in d && NegateLiteral(l) in h;
        assert NegateLiteral(l) in e;
      }
    }
  }

  /** `_negate` followed by `_optimize` keeps exactly the minimal blocking
      clauses of `c` that are no tautology. */
  lemma PrunedNegated<T>(c: Conjunction<T>, h: Clause<T>)
    ensures h in Pruned(Negated(c)) <==> MinimalBlock(h, c) && !Tautological(h)
  {
    PrunedProduct(DeMorgan(c), h);
    forall g ensures Hits(g, DeMorgan(c)) == Blocks(g, c) {
      DeMorganHits(c, g);
    }
  }

  /** A set of clauses that holds exactly the minimal non-tautological
      blocking clauses of `c` is what `_negate` and `_optimize` give. */
  lemma PrunedNegatedIs<T>(c: Conjunction<T>, r: Conjunction<T>)
    requires forall h :: h in r ==> MinimalBlock(h, c) && !Tautological(h)
    requires forall h :: MinimalBlock(h, c) && !Tautological(h) ==> h in r
    ensures Pruned(Negated(c)) == r
  {
    var p := Pruned(Negated(c));
    forall h | h in p ensures h in r {
      PrunedNegated(c, h);
    }
    forall h | h in r ensures h in p {
      PrunedNegated(c, h);
    }
  }

  /** `r` is what `_negate` and `_optimize` keep of `c` as soon as its
      clauses block `c`, none is a tautology or inside another, and every
      blocking clause that is no tautology contains one of them. */
  lemma MinimalBlocksAre<T>(c: Conjunction<T>, r: Conjunction<T>)
    requires forall g :: g in r ==> Blocks(g, c) && !Tautological(g)
    requires forall h :: Blocks(h, c) && !Tautological(h) ==> exists g :: g in r && g <= h
    requires Antichain(r)
    ensures Pruned(Negated(c)) == r
  {
    forall h | h in r ensures MinimalBlock(h, c) && !Tautological(h) {
      forall g | Blocks(g, c) && g <= h ensures g == h {
        SubsetOfNonTautological(g, h);
        var e :| e in r && e <= g;
        assert !(e < h);
      }
    }
    forall h | MinimalBlock(h, c) && !Tautological(h) ensures h in r {
      var g :| g in r && g <= h;
    }
    PrunedNegatedIs(c, r);
  }

  // ---------------------------------------------------------------------
  // `optimize`: three passes of `_optimize`
  // ---------------------------------------------------------------------

  /** `optimize`: `_optimize`, then negate and `_optimize`, then negate and
      `_optimize` again. A trivial formula is left alone; whenever a flag
      is set, the clauses that vanished are what is kept. */
  ghost function Optimized<T>(q: Formula<T>): (r: Formula<T>)
    ensures q.trivial != NonTrivial ==> r == q
    ensures q.trivial == NonTrivial ==> Canonical(r)
  {
    if q.trivial != NonTrivial then q
    else
      var c1 := Pruned(q.conjunction);
      if c1 == {} then Formula(AlwaysTrue, c1)
      else
        var c2 := Pruned(Negated(c1));
        if c2 == {} then Formula(AlwaysFalse, c2)
        else
          NegatedNonEmptyClauses(c2);
          var c3 := Pruned(Negated(c2));
          if c3 == {} then Formula(AlwaysTrue, c3)
          else Formula(NonTrivial, c3)
  }

  /** `optimize` never changes what a formula selects. */
  lemma OptimizedPreservesMeaning<T>(q: Formula<T>, a: T -> bool)
    ensures Eval(Optimized(q), a) == Eval(q, a)
  {
    if q.trivial == NonTrivial {
      var c1 := Pruned(q.conjunction);
      PrunedPreservesMeaning(q.conjunction, a);
      if c1 != {} {
        var c2 := Pruned(Negated(c1));
        PrunedPreservesMeaning(Negated(c1), a);
        NegatedHolds(c1, a);
        if c2 != {} {
          PrunedPreservesMeaning(Negated(c2), a);
          NegatedHolds(c2, a);
        }
      }
    }
  }

  /** `optimize` sets `trivial` to `False` only for a formula that no
      assignment satisfies, and to `True` only for one that every
      assignment satisfies. */
  lemma OptimizedDetectsConstants<T>(q: Formula<T>)
    requires q.trivial == NonTrivial
    ensures Optimized(q).trivial == AlwaysFalse ==> forall a :: !Holds(q.conjunction, a)
    ensures Optimized(q).trivial == AlwaysTrue ==> forall a :: Holds(q.conjunction, a)
  {
    forall a ensures Eval(Optimized(q), a) == Holds(q.conjunction, a) {
      OptimizedPreservesMeaning(q, a);
    }
  }

  /** `__init__`: one clause `{(obj, False)}`, or no clause at all. */
  function New<T(==)>(obj: Option<T>): (r: Formula<T>)
    ensures Valid(r) && r.trivial == NonTrivial
    ensures obj.None? <==> r.conjunction == {}
  {
    if obj.Some? then Formula(NonTrivial, {{Literal(obj.value, false)}})
    else Formula(NonTrivial, {})
  }

  /** A new formula selects the objects carrying its term, and every object
      when it was built without one. */
  lemma NewMeaning<T>(obj: Option<T>, a: T -> bool)
    ensures Eval(New(obj), a) == (obj.Some? ==> a(obj.value))
  {
    if obj.Some? {
      assert ClauseHolds({Literal(obj.value, false)}, a) == a(obj.value);
    }
  }

  /** `clone`: a fresh formula with the given clauses, optimized. */
  ghost function CloneOf<T>(conj: Conjunction<T>): (r: Formula<T>)
    ensures Canonical(r)
  {
    Optimized(Formula(NonTrivial, conj))
  }

  /** The in-place form of `__init__`, `optimize` and `clone`. */
  class ManyRelatedJoinQ<T(==)> {
    var trivial: Trivial
    var conjunction: Conjunction<T>

    function Value(): Formula<T>
      reads this
    {
      Formula(trivial, conjunction)
    }

    constructor (obj: Option<T>)
      ensures Value() == New(obj)
    {
      trivial := NonTrivial;
      if obj.Some? {
        conjunction := {{Literal(obj.value, false)}};
      } else {
        conjunction := {};
      }
    }

    method Optimize()
      modifies this
      ensures Value() == Optimized(old(Value()))
    {
      if trivial != NonTrivial {
        return;
      }
      // `_optimize` misses `a & (~a | b) <=> a & b`; negating, optimizing
      // and negating back catches it.
      var conj := conjunction;
      conj := OptimizeClauses(conj);
      if conj == {} {
        trivial := AlwaysTrue;
      } else {
        conj := NegateClauses(conj);
        conj := OptimizeClauses(conj);
        if conj == {} {
          trivial := AlwaysFalse;
        } else {
          conj := NegateClauses(conj);
          conj := OptimizeClauses(conj);
          if conj == {} {
            trivial := AlwaysTrue;
          }
        }
      }
      conjunction := conj;
    }

    static method Clone(conj: Conjunction<T>) returns (clone: ManyRelatedJoinQ<T>)
      ensures fresh(clone)
      ensures clone.Value() == CloneOf(conj)
    {
      clone := new ManyRelatedJoinQ(None);
      clone.conjunction := conj;
      clone.Optimize();
    }
  }

  // ---------------------------------------------------------------------
  // Combinators
  // ---------------------------------------------------------------------

  /** `__and__`. Only a left `False` short-circuits; a trivial operand
      contributes its (empty) clause set. */
  ghost function And<T>(self: Formula<T>, other: Operand<T>): (r: Result<Formula<T>, Error>)
    ensures self.trivial == AlwaysFalse ==> r == Success(self)
    ensures self.trivial != AlwaysFalse ==> (r.Success? <==> !other.Unsupported?)
    ensures self.trivial != AlwaysFalse && r.Success? ==> Valid(r.value)
  {
    if self.trivial == AlwaysFalse then Success(self)
    else
      match other
      case Term(t) => Success(CloneOf(self.conjunction + {{Literal(t, false)}}))
      case Query(o) => Success(CloneOf(self.conjunction + o.conjunction))
      case Unsupported => Failure(TypeError)
  }

  /** `__and__` leaves its result optimized. */
  lemma AndIsCanonical<T>(self: Formula<T>, other: Operand<T>)
    requires self.trivial != AlwaysFalse && And(self, other).Success?
    ensures Canonical(And(self, other).value)
  {
  }

  /** The clauses of `x | term`: the literal added to every clause. */
  function AddToEach<T(==)>(c: Conjunction<T>, l: Literal<T>): Conjunction<T>
  {
    set d | d in c :: d + {l}
  }

  /** The clauses of `x | y`: every union of a clause of `x` with one of `y`. */
  function PairwiseUnions<T(==)>(c1: Conjunction<T>, c2: Conjunction<T>): Conjunction<T>
  {
    set d, e | d in c1 && e in c2 :: d + e
  }

  /** `__or__`. Only a left `True` short-circuits; `| term` adds the
      literal to every clause, `| formula` takes pairwise clause unions. */
  ghost function Or<T>(self: Formula<T>, other: Operand<T>): (r: Result<Formula<T>, Error>)
    ensures self.trivial == AlwaysTrue ==> r == Success(self)
    ensures self.trivial != AlwaysTrue ==> (r.Success? <==> !other.Unsupported?)
    ensures self.trivial != AlwaysTrue && r.Success? ==> Valid(r.value)
  {
    if self.trivial == AlwaysTrue then Success(self)
    else
      match other
      case Term(t) => Success(CloneOf(AddToEach(self.conjunction, Literal(t, false))))
      case Query(o) =>
        Success(CloneOf(PairwiseUnions(self.conjunction, o.conjunction)))
      case Unsupported => Failure(TypeError)
  }

  /** `__or__` leaves its result optimized. */
  lemma OrIsCanonical<T>(self: Formula<T>, other: Operand<T>)
    requires self.trivial != AlwaysTrue && Or(self, other).Success?
    ensures Canonical(Or(self, other).value)
  {
  }

  /** `__invert__`: a trivial formula has its flag flipped; otherwise the
      negated clauses are optimized. */
  ghost function Invert<T>(self: Formula<T>): (r: Formula<T>)
    ensures Canonical(r)
    ensures self.trivial == AlwaysTrue ==> r == Formula(AlwaysFalse, {})
    ensures self.trivial == AlwaysFalse ==> r == Formula(AlwaysTrue, {})
  {
    if self.trivial != NonTrivial then
      var clone := CloneOf({});
      Formula(if self.trivial == AlwaysTrue then AlwaysFalse else AlwaysTrue, clone.conjunction)
    else CloneOf(Negated(self.conjunction))
  }

  /** `all(*objs)`: one singleton clause per term. */
  ghost function All<T>(objs: seq<T>): (r: Formula<T>)
    ensures Canonical(r)
  {
    CloneOf(set o | o in objs :: {Literal(o, false)})
  }

  /** `any(*objs)`: one clause holding every term. */
  ghost function Any<T>(objs: seq<T>): (r: Formula<T>)
    ensures Canonical(r)
  {
    CloneOf({set o | o in objs :: Literal(o, false)})
  }



  /** `all(*objs)` holds exactly when every one of `objs` does (and so is
      true for no objects). */
  lemma AllMeaning<T>(objs: seq<T>, a: T -> bool)
    ensures Eval(All(objs), a) == forall o :: o in objs ==> a(o)
  {
    var c := set o | o in objs :: {Literal(o, false)};
    OptimizedPreservesMeaning(Formula(NonTrivial, c), a);
    if forall o :: o in objs ==> a(o) {
      forall d | d in c ensures ClauseHolds(d, a) {
        var o :| o in objs && d == {Literal(o, false)};
        assert Literal(o, false) in d && LiteralHolds(Literal(o, false), a);
      }
    } else {
      var o :| o in objs && !a(o);
      assert {Literal(o, false)} in c;
      assert !ClauseHolds({Literal(o, false)}, a);
    }
  }

  /** `any(*objs)` holds exactly when one of `objs` does, so `any()` is
      `False`. */
  lemma AnyMeaning<T>(objs: seq<T>, a: T -> bool)
    ensures Eval(Any(objs), a) == exists o :: o in objs && a(o)
  {
    var d := set o | o in objs :: Literal(o, false);
    OptimizedPreservesMeaning(Formula(NonTrivial, {d}), a);
    assert Holds({d}, a) == ClauseHolds(d, a);
    if exists o :: o in objs && a(o) {
      var o :| o in objs && a(o);
      assert Literal(o, false) in d && LiteralHolds(Literal(o, false), a);
    }
  }
  // Meaning of the combinators.

  /** A valid formula that is not `False` means its clause set. */
  lemma EvalNotFalse<T>(q: Formula<T>, a: T -> bool)
    requires Valid(q) && q.trivial != AlwaysFalse
    ensures Eval(q, a) == Holds(q.conjunction, a)
  {
  }

  lemma AddToEachHolds<T>(c: Conjunction<T>, l: Literal<T>, a: T -> bool)
    ensures Holds(AddToEach(c, l), a) == (Holds(c, a) || LiteralHolds(l, a))
  {
    if !Holds(c, a) && !LiteralHolds(l, a) {
      var d :| d in c && !ClauseHolds(d, a);
      assert d + {l} in AddToEach(c, l) && !ClauseHolds(d + {l}, a);
    }
    if Holds(c, a) || LiteralHolds(l, a) {
      forall z | z in AddToEach(c, l) ensures ClauseHolds(z, a) {
        var d :| d in c && z == d + {l};
        if Holds(c, a) {
          var m :| m in d && LiteralHolds(m, a);
          assert m in z;
        } else {
          assert l in z;
        }
      }
    }
  }

  lemma PairwiseUnionsHold<T>(c1: Conjunction<T>, c2: Conjunction<T>, a: T -> bool)
    ensures Holds(PairwiseUnions(c1, c2), a) == (Holds(c1, a) || Holds(c2, a))
  {
    if !Holds(c1, a) && !Holds(c2, a) {
      var d :| d in c1 && !ClauseHolds(d, a);
      var e :| e in c2 && !ClauseHolds(e, a);
      assert d + e in PairwiseUnions(c1, c2) && !ClauseHolds(d + e, a);
    }
    if Holds(c1, a) || Holds(c2, a) {
      forall z | z in PairwiseUnions(c1, c2) ensures ClauseHolds(z, a) {
        var d, e :| d in c1 && e in c2 && z == d + e;
        if Holds(c1, a) {
          var m :| m in d && LiteralHolds(m, a);
          assert m in z;
        } else {
          var m :| m in e && LiteralHolds(m, a);
          assert m in z;
        }
      }
    }
  }

  /** `x & term` selects what `x` selects and carries the term. */
  lemma AndTermMeaning<T>(p: Formula<T>, t: T, a: T -> bool)
    requires Valid(p)
    ensures And(p, Term(t)).Success?
    ensures Eval(And(p, Term(t)).value, a) == (Eval(p, a) && a(t))
  {
    if p.trivial != AlwaysFalse {
      var c := p.conjunction + {{Literal(t, false)}};
      OptimizedPreservesMeaning(Formula(NonTrivial, c), a);
      assert ClauseHolds({Literal(t, false)}, a) == a(t);
      EvalNotFalse(p, a);
    }
  }

  /** `x & y` is the conjunction of its operands whenever `y` is not the
      `False` formula. */
  lemma AndMeaning<T>(p: Formula<T>, q: Formula<T>, a: T -> bool)
    requires Valid(p) && Valid(q) && q.trivial != AlwaysFalse
    ensures And(p, Query(q)).Success?
    ensures Eval(And(p, Query(q)).value, a) == (Eval(p, a) && Eval(q, a))
  {
    if p.trivial != AlwaysFalse {
      OptimizedPreservesMeaning(Formula(NonTrivial, p.conjunction + q.conjunction), a);
      EvalNotFalse(p, a);
      EvalNotFalse(q, a);
    }
  }

  /** `x & False` keeps the meaning of `x`: a `False` formula carries no
      clause, so nothing is added. */
  lemma AndFalseKeepsLeft<T>(p: Formula<T>, c: Conjunction<T>, a: T -> bool)
    requires Valid(p)
    ensures And(p, Query(Formula(AlwaysFalse, c))).Success?
    ensures c == {} ==> Eval(And(p, Query(Formula(AlwaysFalse, c))).value, a) == Eval(p, a)
  {
    if p.trivial != AlwaysFalse {
      OptimizedPreservesMeaning(Formula(NonTrivial, p.conjunction + c), a);
      EvalNotFalse(p, a);
    }
  }

  /** `x | term` selects what `x` selects and whatever carries the term. */
  lemma OrTermMeaning<T>(p: Formula<T>, t: T, a: T -> bool)
    requires Valid(p) && p.trivial != AlwaysFalse
    ensures Or(p, Term(t)).Success?
    ensures Eval(Or(p, Term(t)).value, a) == (Eval(p, a) || a(t))
  {
    if p.trivial != AlwaysTrue {
      OptimizedPreservesMeaning(Formula(NonTrivial, AddToEach(p.conjunction, Literal(t, false))), a);
      AddToEachHolds(p.conjunction, Literal(t, false), a);
      EvalNotFalse(p, a);
    }
  }

  /** `x | y` is the disjunction of its operands whenever neither is the
      `False` formula. */
  lemma OrMeaning<T>(p: Formula<T>, q: Formula<T>, a: T -> bool)
    requires Valid(p) && Valid(q) && p.trivial != AlwaysFalse && q.trivial != AlwaysFalse
    ensures Or(p, Query(q)).Success?
    ensures Eval(Or(p, Query(q)).value, a) == (Eval(p, a) || Eval(q, a))
  {
    EvalNotFalse(q, a);
    if p.trivial != AlwaysTrue {
      OptimizedPreservesMeaning(Formula(NonTrivial, PairwiseUnions(p.conjunction, q.conjunction)), a);
      PairwiseUnionsHold(p.conjunction, q.conjunction, a);
      EvalNotFalse(p, a);
    }
  }

  /** `x | False` and `False | x` both give `True`: the empty clause set of
      `False` is read as "no constraint". */
  lemma OrWithFalseIsTrue<T>(p: Formula<T>, x: Operand<T>)
    requires Valid(p) && !x.Unsupported?
    ensures Or(p, Query(Formula(AlwaysFalse, {}))) == Success(Formula(AlwaysTrue, {}))
    ensures Or(Formula(AlwaysFalse, {}), x) == Success(Formula(AlwaysTrue, {}))
  {
    assert PairwiseUnions(p.conjunction, {}) == {};
    if x.Term? {
      assert AddToEach({}, Literal(x.term, false)) == {};
    } else {
      assert PairwiseUnions({}, x.q.conjunction) == {};
    }
  }

  /** `tag & False` still selects an object that carries the tag, where a
      conjunction with `False` should select nothing. */
  lemma AndFalseCounterexample<T>(t: T)
    ensures And(New(Some(t)), Query(Formula(AlwaysFalse, {}))).Success?
    ensures Eval(And(New(Some(t)), Query(Formula(AlwaysFalse, {}))).value, _ => true)
  {
    AndFalseKeepsLeft(New(Some(t)), {}, _ => true);
    NewMeaning(Some(t), _ => true);
  }

  /** `__and__` as evidently intended: a `False` on either side gives
      `False`. */
  ghost function AndCorrected<T>(self: Formula<T>, other: Operand<T>): (r: Result<Formula<T>, Error>)
    ensures self.trivial == AlwaysFalse ==> r == Success(self)
    ensures self.trivial != AlwaysFalse ==> (r.Success? <==> !other.Unsupported?)
  {
    if other.Query? && other.q.trivial == AlwaysFalse && self.trivial != AlwaysFalse then Success(other.q)
    else And(self, other)
  }

  /** `__or__` as evidently intended: a `False` operand contributes
      nothing, so the other operand is the result. */
  ghost function OrCorrected<T>(self: Formula<T>, other: Operand<T>): (r: Result<Formula<T>, Error>)
    ensures self.trivial == AlwaysTrue ==> r == Success(self)
    ensures self.trivial != AlwaysTrue ==> (r.Success? <==> !other.Unsupported?)
  {
    if self.trivial == AlwaysTrue then Success(self)
    else if self.trivial == AlwaysFalse then
      match other
      case Term(t) => Success(CloneOf({{Literal(t, false)}}))
      case Query(o) => Success(o)
      case Unsupported => Failure(TypeError)
    else if other.Query? && other.q.trivial == AlwaysFalse then Success(self)
    else Or(self, other)
  }

  /** The corrected `x & y` is the conjunction of any two valid formulas. */
  lemma AndCorrectedMeaning<T>(p: Formula<T>, q: Formula<T>, a: T -> bool)
    requires Valid(p) && Valid(q)
    ensures AndCorrected(p, Query(q)).Success?
    ensures Eval(AndCorrected(p, Query(q)).value, a) == (Eval(p, a) && Eval(q, a))
  {
    if q.trivial != AlwaysFalse {
      AndMeaning(p, q, a);
    }
  }

  /** The corrected `x | y` is the disjunction of any two valid formulas. */
  lemma OrCorrectedMeaning<T>(p: Formula<T>, q: Formula<T>, a: T -> bool)
    requires Valid(p) && Valid(q)
    ensures OrCorrected(p, Query(q)).Success?
    ensures Eval(OrCorrected(p, Query(q)).value, a) == (Eval(p, a) || Eval(q, a))
  {
    if p.trivial != AlwaysFalse && q.trivial != AlwaysFalse {
      OrMeaning(p, q, a);
    }
  }

  /** The corrected `x | term` for any valid `x`. */
  lemma OrCorrectedTermMeaning<T>(p: Formula<T>, t: T, a: T -> bool)
    requires Valid(p)
    ensures OrCorrected(p, Term(t)).Success?
    ensures Eval(OrCorrected(p, Term(t)).value, a) == (Eval(p, a) || a(t))
  {
    if p.trivial == AlwaysFalse {
      OptimizedPreservesMeaning(Formula(NonTrivial, {{Literal(t, false)}}), a);
      assert ClauseHolds({Literal(t, false)}, a) == a(t);
    } else {
      OrTermMeaning(p, t, a);
    }
  }

  /** `~x` is the negation of a valid formula `x`. */
  lemma InvertMeaning<T>(p: Formula<T>, a: T -> bool)
    requires Valid(p)
    ensures Eval(Invert(p), a) == !Eval(p, a)
  {
    if p.trivial == NonTrivial {
      OptimizedPreservesMeaning(Formula(NonTrivial, Negated(p.conjunction)), a);
      NegatedHolds(p.conjunction, a);
    }
  }

  /** `~~x` selects what `x` selects. */
  lemma DoubleInvertMeaning<T>(p: Formula<T>, a: T -> bool)
    requires Valid(p)
    ensures Eval(Invert(Invert(p)), a) == Eval(p, a)
  {
    InvertMeaning(p, a);
    InvertMeaning(Invert(p), a);
  }


  // ---------------------------------------------------------------------
  // Comparisons and size
  // ---------------------------------------------------------------------

  /** `__eq__`: a trivial left operand compares flags only, otherwise the
      clause sets are compared (the right flag is not looked at). */
  predicate Equal<T(==)>(self: Formula<T>, other: Formula<T>)
  {
    if self.trivial != NonTrivial then self.trivial == other.trivial
    else self.conjunction == other.conjunction
  }

  /** On canonical formulas `==` is structural equality, in both directions. */
  lemma EqualIsIdentity<T>(p: Formula<T>, q: Formula<T>)
    requires Canonical(p) && Canonical(q)
    ensures Equal(p, q) <==> p == q
  {
    if p.trivial == NonTrivial && q.trivial != NonTrivial {
      assert p.conjunction != q.conjunction;
    }
  }

  /** `__lt__` as written: `False` is below everything, `True` only below
      `True`, and otherwise every clause of `self` must be a proper subset
      of some clause of `other`. */
  predicate Less<T(==)>(self: Formula<T>, other: Formula<T>)
  {
    if self.trivial == AlwaysFalse then true
    else if self.trivial == AlwaysTrue then other.trivial == AlwaysTrue
    else forall d :: d in self.conjunction ==> exists e :: e in other.conjunction && d < e
  }

  /** `__gt__` mirrors `__lt__`. */
  predicate Greater<T(==)>(self: Formula<T>, other: Formula<T>)
  {
    Less(other, self)
  }

  /** A non-empty set of clauses has a clause of largest size. */
  lemma {:induction false} LargestClause<T>(c: Conjunction<T>)
    requires c != {}
    ensures exists d :: d in c && forall e :: e in c ==> |e| <= |d|
    decreases |c|
  {
    var d0 :| d0 in c;
    if c - {d0} == {} {
      forall e | e in c ensures |e| <= |d0| {
        assert e !in c - {d0};
      }
    } else {
      LargestClause(c - {d0});
      var d1 :| d1 in c - {d0} && forall e :: e in c - {d0} ==> |e| <= |d1|;
      if |d0| <= |d1| {
        assert forall e :: e in c ==> |e| <= |d1|;
      } else {
        assert forall e :: e in c ==> |e| <= |d0|;
      }
    }
  }

  /** The order facts of `<` and `>`: `False` is below and `True` above
      only as the code allows, and a formula with clauses is never below
      itself, nor below `True`. */
  lemma LessOrder<T>(f: Formula<T>, c: Conjunction<T>)
    ensures Less(Formula(AlwaysFalse, c), f) && Greater(f, Formula(AlwaysFalse, c))
    ensures Less(Formula(AlwaysTrue, c), f) <==> f.trivial == AlwaysTrue
    ensures f.trivial == NonTrivial && f.conjunction != {} ==> !Less(f, f)
    ensures f.trivial == NonTrivial && f.conjunction != {} ==> !Less(f, Formula(AlwaysTrue, {}))
  {
    if f.trivial == NonTrivial && f.conjunction != {} {
      LargestClause(f.conjunction);
      var d :| d in f.conjunction && forall e :: e in f.conjunction ==> |e| <= |d|;
      if e :| e in f.conjunction && d < e {
        ProperSubsetSmaller(d, e);
      }
    }
  }

  /** `__lt__` is not implication: with `a` true and `b`, `c` false the
      left side holds and the right side does not, yet `a < (a | b) & c`. */
  lemma LessIsNotImplication()
    ensures var p := Formula(NonTrivial, {{Literal(1, false)}});
            var q := Formula(NonTrivial, {{Literal(1, false), Literal(2, false)}, {Literal(3, false)}});
            var a := (t: int) => t == 1;
            Canonical(p) && Canonical(q) && Less(p, q) && Eval(p, a) && !Eval(q, a)
  {
    var a := (t: int) => t == 1;
    var d := {Literal(1, false)};
    var e := {Literal(1, false), Literal(2, false)};
    var f := {Literal(3, false)};
    assert Literal(2, false) in e && Literal(2, false) !in d;
    assert d < e;
    assert !ClauseHolds(f, a) by {
      forall l | l in f ensures !LiteralHolds(l, a) {
        assert l == Literal(3, false);
      }
    }
    assert ClauseHolds(d, a) by {
      assert Literal(1, false) in d && LiteralHolds(Literal(1, false), a);
    }
    assert !Tautological(e) by {
      forall l | l in e ensures NegateLiteral(l) !in e {
        assert l == Literal(1, false) || l == Literal(2, false);
      }
    }
    assert !Tautological(d) && !Tautological(f) by {
      forall l | l in d ensures NegateLiteral(l) !in d {}
      forall l | l in f ensures NegateLiteral(l) !in f {}
    }
    assert Literal(3, false) !in e;
  }

  /** Implication as the design describes it: every clause of `other` is
      implied by (contains) some clause of `self`. */
  predicate Implies<T(==)>(self: Formula<T>, other: Formula<T>)
  {
    if self.trivial == AlwaysFalse || other.trivial == AlwaysTrue then true
    else if self.trivial == AlwaysTrue || other.trivial == AlwaysFalse then false
    else forall e :: e in other.conjunction ==> exists d :: d in self.conjunction && d <= e
  }

  /** `Implies` is sound: whatever satisfies `self` satisfies `other`. */
  lemma ImpliesIsSound<T>(p: Formula<T>, q: Formula<T>, a: T -> bool)
    requires Valid(p) && Valid(q) && Implies(p, q)
    ensures Eval(p, a) ==> Eval(q, a)
  {
    if p.trivial == NonTrivial && q.trivial == NonTrivial && Eval(p, a) {
      forall e | e in q.conjunction ensures ClauseHolds(e, a) {
        var d :| d in p.conjunction && d <= e;
        var l :| l in d && LiteralHolds(l, a);
        assert l in e;
      }
    }
  }

  /** `Implies` also reaches the cases `__lt__` misses: `f` implies `True`,
      and a formula implies itself. */
  lemma ImpliesOrder<T>(f: Formula<T>, c: Conjunction<T>)
    ensures Implies(f, Formula(AlwaysTrue, c))
    ensures Implies(Formula(AlwaysFalse, c), f)
    ensures Implies(f, f)
  {
    if f.trivial == NonTrivial {
      forall e | e in f.conjunction ensures exists d :: d in f.conjunction && d <= e {
        assert e <= e;
      }
    }
  }

  /** `__len__`: the number of clauses, 0 for the constants. */
  function Len<T(==)>(q: Formula<T>): (n: nat)
    ensures Valid(q) && q.trivial != NonTrivial ==> n == 0
    ensures Canonical(q) && q.trivial == NonTrivial ==> n > 0
  {
    |q.conjunction|
  }

  /** `contains_negation`: some literal of some clause is negated. */
  predicate ContainsNegation<T(==)>(c: Conjunction<T>)
  {
    exists d, l :: d in c && l in d && l.negated
  }


  // ---------------------------------------------------------------------
  // `add_to_query` as a plan
  // ---------------------------------------------------------------------

  /** What `add_to_query` contributes to a query: nothing, a
      `1=0` condition, one filter on the OR of the terms grouped by object
      with a required count of matching join rows, or one OR-filter per
      clause over a fresh join. */
  datatype Plan<T(==)> =
    | NoConstraint
    | ForceEmpty
    | GroupedCount(terms: set<T>, required: nat)
    | PerClauseFilters(clauses: Conjunction<T>)

  /** `max(len(disj) for disj in conjunction) == 1`. */
  predicate LargestClauseIsSingleton<T(==)>(c: Conjunction<T>)
  {
    (forall d :: d in c ==> |d| <= 1) && (exists d :: d in c && |d| == 1)
  }

  /** The terms named in a clause. */
  function ClauseTerms<T(==)>(d: Clause<T>): set<T>
  {
    set l | l in d :: l.term
  }

  /** The terms named in a set of clauses. */
  function TermsOf<T(==)>(c: Conjunction<T>): set<T>
  {
    set d, t | d in c && t in ClauseTerms(d) :: t
  }

  /** A clause and a literal that name a term of `TermsOf(c)`. */
  lemma TermWitness<T>(c: Conjunction<T>, t: T) returns (d: Clause<T>, l: Literal<T>)
    requires t in TermsOf(c)
    ensures d in c && l in d && l.term == t
  {
    d :| d in c && t in ClauseTerms(d);
    l :| l in d && l.term == t;
  }

  /** `add_to_query`. The aggregated form takes the one literal of every
      clause (an empty clause stops that `next()`); the per-clause form
      reduces every clause with `|` (an empty clause leaves nothing to
      reduce). */
  function AddToQuery<T(==)>(q: Formula<T>, useAggregation: bool): (r: Result<Plan<T>, Error>)
    ensures q.trivial == AlwaysTrue ==> r == Success(NoConstraint)
    ensures q.trivial == AlwaysFalse ==> r == Success(ForceEmpty)
    ensures Canonical(q) ==> r.Success?
    ensures r.Failure? ==> {} in q.conjunction
  {
    if q.trivial == AlwaysTrue then Success(NoConstraint)
    else if q.trivial == AlwaysFalse then Success(ForceEmpty)
    else if useAggregation && |q.conjunction| > 1 && LargestClauseIsSingleton(q.conjunction)
            && !ContainsNegation(q.conjunction) then
      if {} in q.conjunction then Failure(StopIteration)
      else Success(GroupedCount(TermsOf(q.conjunction), |q.conjunction|))
    else if {} in q.conjunction then Failure(TypeError)
    else Success(PerClauseFilters(q.conjunction))
  }

  /** Whether an object with the given related terms passes the plan. */
  predicate Selects<T(==)>(plan: Plan<T>, tags: set<T>)
  {
    match plan
    case NoConstraint => true
    case ForceEmpty => false
    case GroupedCount(terms, required) => |terms * tags| == required
    case PerClauseFilters(clauses) =>
      forall d :: d in clauses ==> exists l :: l in d && (l.term in tags) != l.negated
  }

  /** A literal of a singleton clause is all of it. */
  lemma SingletonIs<T>(d: Clause<T>) returns (l: Literal<T>)
    requires |d| == 1
    ensures d == {l}
  {
    l :| l in d;
    assert |d - {l}| == 0;
  }

  /** Clauses that are single un-negated literals name as many terms as
      there are clauses. */
  lemma {:induction false} SingletonTermsCount<T>(c: Conjunction<T>)
    requires forall d :: d in c ==> |d| == 1
    requires forall d, l :: d in c && l in d ==> !l.negated
    ensures |TermsOf(c)| == |c|
    decreases |c|
  {
    if c != {} {
      var d0 :| d0 in c;
      assert |d0| == 1;
      var l0 := SingletonIs(d0);
      var rest := c - {d0};
      SingletonTermsCount(rest);
      assert ClauseTerms(d0) == {l0.term};
      assert TermsOf(c) == TermsOf(rest) + {l0.term};
      if l0.term in TermsOf(rest) {
        var d, l := TermWitness(rest, l0.term);
        var l' := SingletonIs(d);
      }
    }
  }

  /** The plan selects exactly the objects whose terms satisfy the formula:
      an object passes the grouped count when it carries every term. */
  lemma AddToQueryMatches<T>(q: Formula<T>, useAggregation: bool, tags: set<T>)
    requires Valid(q)
    requires AddToQuery(q, useAggregation).Success?
    ensures Selects(AddToQuery(q, useAggregation).value, tags) == Eval(q, t => t in tags)
  {
    var a := (t: T) => t in tags;
    var plan := AddToQuery(q, useAggregation).value;
    if plan.GroupedCount? {
      var c := q.conjunction;
      assert forall d :: d in c ==> |d| == 1 by {
        forall d | d in c ensures |d| == 1 {
          assert d != {};
        }
      }
      SingletonTermsCount(c);
      var terms := TermsOf(c);
      if terms <= tags {
        assert terms * tags == terms;
        forall d | d in c ensures ClauseHolds(d, a) {
          var l :| l in d;
          assert l.term in ClauseTerms(d);
        }
      } else {
        var t :| t in terms && t !in tags;
        var d, l := TermWitness(c, t);
        var l' := SingletonIs(d);
        assert !ClauseHolds(d, a);
        ProperSubsetSmaller(terms * tags, terms);
      }
    }
  }
}
