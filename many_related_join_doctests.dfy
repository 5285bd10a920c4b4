/** The `repr` doctests of `ManyRelatedJoinQ`, worked through the model.

    Each doctest combines the tags `a`, `b`, `c`, `d` (named "A" to "D")
    with `&`, `|` and `~`; a tag first becomes `FooTagQ(tag)`, a formula
    with the one clause `{(tag, False)}`. Every step goes through `clone`,
    so every intermediate formula is optimized; the lemmas below compute
    what each of those optimizations keeps, with the characterisation of
    `_negate` followed by `_optimize` as minimal blocking clauses, and
    then the text that `__repr__` prints. */
module ManyRelatedJoinDoctests {
  import opened Wrappers
  import opened PythonOrder
  import opened ManyRelatedJoin
  import opened ManyRelatedJoinRepr

  // ---------------------------------------------------------------------
  // What `_negate` and `_optimize` keep of a few small conjunctions
  // ---------------------------------------------------------------------

  function Not<T(==)>(l: Literal<T>): Literal<T> {
    NegateLiteral(l)
  }

  lemma BlockedOne<T>(h: Clause<T>, c: Conjunction<T>, x: Literal<T>)
    requires Blocks(h, c) && {x} in c
    ensures Not(x) in h
  {
    var l :| l in {x} && NegateLiteral(l) in h;
  }

  lemma BlockedTwo<T>(h: Clause<T>, c: Conjunction<T>, x: Literal<T>, y: Literal<T>)
    requires Blocks(h, c) && {x, y} in c
    ensures Not(x) in h || Not(y) in h
  {
    var l :| l in {x, y} && NegateLiteral(l) in h;
  }

  lemma BlockedThree<T>(h: Clause<T>, c: Conjunction<T>, x: Literal<T>, y: Literal<T>, z: Literal<T>)
    requires Blocks(h, c) && {x, y, z} in c
    ensures Not(x) in h || Not(y) in h || Not(z) in h
  {
    var l :| l in {x, y, z} && NegateLiteral(l) in h;
  }

  lemma BlocksTwoClauses<T>(g: Clause<T>, d0: Clause<T>, d1: Clause<T>, a: Literal<T>, b: Literal<T>)
    requires a in d0 && Not(a) in g && b in d1 && Not(b) in g
    ensures Blocks(g, {d0, d1})
  {
  }

  lemma BlocksFourClauses<T>(g: Clause<T>, d0: Clause<T>, d1: Clause<T>, d2: Clause<T>, d3: Clause<T>,
                             a0: Literal<T>, a1: Literal<T>, a2: Literal<T>, a3: Literal<T>)
    requires a0 in d0 && Not(a0) in g && a1 in d1 && Not(a1) in g
    requires a2 in d2 && Not(a2) in g && a3 in d3 && Not(a3) in g
    ensures Blocks(g, {d0, d1, d2, d3})
  {
  }

  /** `~x` alone. */
  lemma NegateUnit<T>(x: Literal<T>)
    ensures Pruned(Negated({{x}})) == {{Not(x)}}
  {
    var c := {{x}};
    forall h | Blocks(h, c) && !Tautological(h) ensures exists g :: g in {{Not(x)}} && g <= h {
      BlockedOne(h, c, x);
      assert {Not(x)} <= h;
    }
    MinimalBlocksAre(c, {{Not(x)}});
  }

  /** `~(x & y)` is `(~x | ~y)`. */
  lemma NegateTwoUnits<T>(x: Literal<T>, y: Literal<T>)
    requires x.term != y.term
    ensures Pruned(Negated({{x}, {y}})) == {{Not(x), Not(y)}}
  {
    var c := {{x}, {y}};
    var g := {Not(x), Not(y)};
    forall h | Blocks(h, c) && !Tautological(h) ensures exists e :: e in {g} && e <= h {
      BlockedOne(h, c, x);
      BlockedOne(h, c, y);
      assert g <= h;
    }
    assert Blocks(g, c) by {
      forall d | d in c ensures exists l :: l in d && NegateLiteral(l) in g {
        if d == {x} { assert x in d; } else { assert y in d; }
      }
    }
    MinimalBlocksAre(c, {g});
  }

  /** `~(x | y)` is `(~x) & (~y)`. */
  lemma NegatePair<T>(x: Literal<T>, y: Literal<T>)
    requires x != y
    ensures Pruned(Negated({{x, y}})) == {{Not(x)}, {Not(y)}}
  {
    var c := {{x, y}};
    var r := {{Not(x)}, {Not(y)}};
    PairCover(x, y);
    PairBlocks(x, y);
    assert Not(x) != Not(y);
    MinimalBlocksAre(c, r);
  }

  lemma PairCover<T>(x: Literal<T>, y: Literal<T>)
    ensures forall h :: Blocks(h, {{x, y}}) && !Tautological(h) ==>
      exists e :: e in {{Not(x)}, {Not(y)}} && e <= h
  {
    forall h | Blocks(h, {{x, y}}) ensures exists e :: e in {{Not(x)}, {Not(y)}} && e <= h {
      BlockedTwo(h, {{x, y}}, x, y);
      if Not(x) in h { assert {Not(x)} <= h; } else { assert {Not(y)} <= h; }
    }
  }

  lemma PairBlocks<T>(x: Literal<T>, y: Literal<T>)
    ensures Blocks({Not(x)}, {{x, y}}) && Blocks({Not(y)}, {{x, y}})
  {
    assert x in {x, y} && y in {x, y};
  }

  /** `~(x & y & z)` is `(~x | ~y | ~z)`. */
  lemma NegateThreeUnits<T>(x: Literal<T>, y: Literal<T>, z: Literal<T>)
    requires x.term != y.term && x.term != z.term && y.term != z.term
    ensures Pruned(Negated({{x}, {y}, {z}})) == {{Not(x), Not(y), Not(z)}}
  {
    var c := {{x}, {y}, {z}};
    var g := {Not(x), Not(y), Not(z)};
    forall h | Blocks(h, c) ensures exists e :: e in {g} && e <= h {
      BlockedOne(h, c, x);
      BlockedOne(h, c, y);
      BlockedOne(h, c, z);
      assert g <= h;
    }
    assert Blocks(g, c) by {
      forall d | d in c ensures exists l :: l in d && NegateLiteral(l) in g {
        if d == {x} { assert x in d; } else if d == {y} { assert y in d; } else { assert z in d; }
      }
    }
    MinimalBlocksAre(c, {g});
  }

  /** `~(x | y | z)` is `(~x) & (~y) & (~z)`. */
  lemma NegateTriple<T>(x: Literal<T>, y: Literal<T>, z: Literal<T>)
    requires x != y && x != z && y != z
    ensures Pruned(Negated({{x, y, z}})) == {{Not(x)}, {Not(y)}, {Not(z)}}
  {
    TripleCover(x, y, z);
    TripleBlocks(x, y, z);
    TripleClean(x, y, z);
    MinimalBlocksAre({{x, y, z}}, {{Not(x)}, {Not(y)}, {Not(z)}});
  }

  lemma TripleCover<T>(x: Literal<T>, y: Literal<T>, z: Literal<T>)
    ensures forall h :: Blocks(h, {{x, y, z}}) && !Tautological(h) ==>
      exists e :: e in {{Not(x)}, {Not(y)}, {Not(z)}} && e <= h
  {
    forall h | Blocks(h, {{x, y, z}}) ensures exists e :: e in {{Not(x)}, {Not(y)}, {Not(z)}} && e <= h {
      BlockedThree(h, {{x, y, z}}, x, y, z);
      if Not(x) in h { assert {Not(x)} <= h; }
      else if Not(y) in h { assert {Not(y)} <= h; }
      else { assert {Not(z)} <= h; }
    }
  }

  lemma TripleClean<T>(x: Literal<T>, y: Literal<T>, z: Literal<T>)
    requires x != y && x != z && y != z
    ensures Antichain({{Not(x)}, {Not(y)}, {Not(z)}})
    ensures !Tautological({Not(x)}) && !Tautological({Not(y)}) && !Tautological({Not(z)})
  {
    assert Not(x) != Not(y) && Not(x) != Not(z) && Not(y) != Not(z);
  }

  lemma TripleBlocks<T>(x: Literal<T>, y: Literal<T>, z: Literal<T>)
    ensures Blocks({Not(x)}, {{x, y, z}}) && Blocks({Not(y)}, {{x, y, z}}) && Blocks({Not(z)}, {{x, y, z}})
  {
    assert x in {x, y, z} && y in {x, y, z} && z in {x, y, z};
  }

  /** `(x | y) & (z | w)` is blocked by one negation from each side. */
  lemma NegateTwoPairs<T>(x: Literal<T>, y: Literal<T>, z: Literal<T>, w: Literal<T>)
    requires x.term != y.term && x.term != z.term && x.term != w.term
    requires y.term != z.term && y.term != w.term && z.term != w.term
    ensures Pruned(Negated({{x, y}, {z, w}}))
         == {{Not(x), Not(z)}, {Not(x), Not(w)}, {Not(y), Not(z)}, {Not(y), Not(w)}}
  {
    var r := {{Not(x), Not(z)}, {Not(x), Not(w)}, {Not(y), Not(z)}, {Not(y), Not(w)}};
    TwoPairsCover(x, y, z, w);
    TwoPairsBlocks(x, y, z, w);
    TwoPairsClean(x, y, z, w);
    MinimalBlocksAre({{x, y}, {z, w}}, r);
  }

  lemma TwoPairsCover<T>(x: Literal<T>, y: Literal<T>, z: Literal<T>, w: Literal<T>)
    ensures forall h :: Blocks(h, {{x, y}, {z, w}}) && !Tautological(h) ==>
      exists e :: e in {{Not(x), Not(z)}, {Not(x), Not(w)}, {Not(y), Not(z)}, {Not(y), Not(w)}} && e <= h
  {
    var c := {{x, y}, {z, w}};
    var r := {{Not(x), Not(z)}, {Not(x), Not(w)}, {Not(y), Not(z)}, {Not(y), Not(w)}};
    forall h | Blocks(h, c) ensures exists e :: e in r && e <= h {
      BlockedTwo(h, c, x, y);
      BlockedTwo(h, c, z, w);
      var a := if Not(x) in h then Not(x) else Not(y);
      var b := if Not(z) in h then Not(z) else Not(w);
      assert {a, b} in r && {a, b} <= h;
    }
  }

  lemma TwoPairsBlocks<T>(x: Literal<T>, y: Literal<T>, z: Literal<T>, w: Literal<T>)
    ensures Blocks({Not(x), Not(z)}, {{x, y}, {z, w}}) && Blocks({Not(x), Not(w)}, {{x, y}, {z, w}})
    ensures Blocks({Not(y), Not(z)}, {{x, y}, {z, w}}) && Blocks({Not(y), Not(w)}, {{x, y}, {z, w}})
  {
    BlocksTwoClauses({Not(x), Not(z)}, {x, y}, {z, w}, x, z);
    BlocksTwoClauses({Not(x), Not(w)}, {x, y}, {z, w}, x, w);
    BlocksTwoClauses({Not(y), Not(z)}, {x, y}, {z, w}, y, z);
    BlocksTwoClauses({Not(y), Not(w)}, {x, y}, {z, w}, y, w);
  }

  lemma TwoPairsClean<T>(x: Literal<T>, y: Literal<T>, z: Literal<T>, w: Literal<T>)
    requires x.term != y.term && x.term != z.term && x.term != w.term
    requires y.term != z.term && y.term != w.term && z.term != w.term
    ensures Antichain({{Not(x), Not(z)}, {Not(x), Not(w)}, {Not(y), Not(z)}, {Not(y), Not(w)}})
    ensures !Tautological({Not(x), Not(z)}) && !Tautological({Not(x), Not(w)})
    ensures !Tautological({Not(y), Not(z)}) && !Tautological({Not(y), Not(w)})
  {
  }

  /** `(x | z) & (x | w) & (y | z) & (y | w)` is blocked by `~x, ~y` or by
      `~z, ~w`. */
  lemma NegateFourPairs<T>(x: Literal<T>, y: Literal<T>, z: Literal<T>, w: Literal<T>)
    requires x.term != y.term && x.term != z.term && x.term != w.term
    requires y.term != z.term && y.term != w.term && z.term != w.term
    ensures Pruned(Negated({{x, z}, {x, w}, {y, z}, {y, w}})) == {{Not(x), Not(y)}, {Not(z), Not(w)}}
  {
    var c := {{x, z}, {x, w}, {y, z}, {y, w}};
    FourPairsCover(x, y, z, w);
    BlocksFourClauses({Not(x), Not(y)}, {x, z}, {x, w}, {y, z}, {y, w}, x, x, y, y);
    BlocksFourClauses({Not(z), Not(w)}, {x, z}, {x, w}, {y, z}, {y, w}, z, w, z, w);
    FourPairsClean(x, y, z, w);
    MinimalBlocksAre(c, {{Not(x), Not(y)}, {Not(z), Not(w)}});
  }

  lemma FourPairsCover<T>(x: Literal<T>, y: Literal<T>, z: Literal<T>, w: Literal<T>)
    ensures forall h :: Blocks(h, {{x, z}, {x, w}, {y, z}, {y, w}}) && !Tautological(h) ==>
      exists e :: e in {{Not(x), Not(y)}, {Not(z), Not(w)}} && e <= h
  {
    var c := {{x, z}, {x, w}, {y, z}, {y, w}};
    forall h | Blocks(h, c) ensures exists e :: e in {{Not(x), Not(y)}, {Not(z), Not(w)}} && e <= h {
      BlockedTwo(h, c, x, z);
      BlockedTwo(h, c, x, w);
      BlockedTwo(h, c, y, z);
      BlockedTwo(h, c, y, w);
      if Not(x) in h && Not(y) in h { assert {Not(x), Not(y)} <= h; }
      else { assert {Not(z), Not(w)} <= h; }
    }
  }

  lemma FourPairsClean<T>(x: Literal<T>, y: Literal<T>, z: Literal<T>, w: Literal<T>)
    requires x.term != y.term && x.term != z.term && x.term != w.term
    requires y.term != z.term && y.term != w.term && z.term != w.term
    ensures Antichain({{Not(x), Not(y)}, {Not(z), Not(w)}})
    ensures !Tautological({Not(x), Not(y)}) && !Tautological({Not(z), Not(w)})
  {
  }

  /** `(x | y) & (x | z)` is blocked by `~x` or by `~y, ~z`. */
  lemma NegateSharedPair<T>(x: Literal<T>, y: Literal<T>, z: Literal<T>)
    requires x.term != y.term && x.term != z.term && y.term != z.term
    ensures Pruned(Negated({{x, y}, {x, z}})) == {{Not(x)}, {Not(y), Not(z)}}
  {
    var c := {{x, y}, {x, z}};
    forall h | Blocks(h, c) ensures exists e :: e in {{Not(x)}, {Not(y), Not(z)}} && e <= h {
      BlockedTwo(h, c, x, y);
      BlockedTwo(h, c, x, z);
      if Not(x) in h { assert {Not(x)} <= h; } else { assert {Not(y), Not(z)} <= h; }
    }
    BlocksTwoClauses({Not(x)}, {x, y}, {x, z}, x, x);
    BlocksTwoClauses({Not(y), Not(z)}, {x, y}, {x, z}, y, z);
    SharedPairClean(x, y, z);
    MinimalBlocksAre(c, {{Not(x)}, {Not(y), Not(z)}});
  }

  lemma SharedPairClean<T>(x: Literal<T>, y: Literal<T>, z: Literal<T>)
    requires x.term != y.term && x.term != z.term && y.term != z.term
    ensures Antichain({{Not(x)}, {Not(y), Not(z)}})
    ensures !Tautological({Not(x)}) && !Tautological({Not(y), Not(z)})
  {
  }

  /** `x & (y | z)` is blocked by `~x, ~y` or by `~x, ~z`. */
  lemma NegateUnitAndPair<T>(x: Literal<T>, y: Literal<T>, z: Literal<T>)
    requires x.term != y.term && x.term != z.term && y.term != z.term
    ensures Pruned(Negated({{x}, {y, z}})) == {{Not(x), Not(y)}, {Not(x), Not(z)}}
  {
    var c := {{x}, {y, z}};
    forall h | Blocks(h, c) ensures exists e :: e in {{Not(x), Not(y)}, {Not(x), Not(z)}} && e <= h {
      BlockedOne(h, c, x);
      BlockedTwo(h, c, y, z);
      if Not(y) in h { assert {Not(x), Not(y)} <= h; } else { assert {Not(x), Not(z)} <= h; }
    }
    BlocksTwoClauses({Not(x), Not(y)}, {x}, {y, z}, x, y);
    BlocksTwoClauses({Not(x), Not(z)}, {x}, {y, z}, x, z);
    UnitAndPairClean(x, y, z);
    MinimalBlocksAre(c, {{Not(x), Not(y)}, {Not(x), Not(z)}});
  }

  lemma UnitAndPairClean<T>(x: Literal<T>, y: Literal<T>, z: Literal<T>)
    requires x.term != y.term && x.term != z.term && y.term != z.term
    ensures Antichain({{Not(x), Not(y)}, {Not(x), Not(z)}})
    ensures !Tautological({Not(x), Not(y)}) && !Tautological({Not(x), Not(z)})
  {
  }

  /** `(x | y) & (~x | ~y)` is blocked by `~x, y` or by `x, ~y`: the other
      two picks are tautologies. */
  lemma NegateOpposedPairs<T>(x: Literal<T>, y: Literal<T>)
    requires x.term != y.term
    ensures Pruned(Negated({{x, y}, {Not(x), Not(y)}})) == {{Not(x), y}, {x, Not(y)}}
  {
    var c := {{x, y}, {Not(x), Not(y)}};
    forall h | Blocks(h, c) && !Tautological(h) ensures exists e :: e in {{Not(x), y}, {x, Not(y)}} && e <= h {
      BlockedTwo(h, c, x, y);
      BlockedTwo(h, c, Not(x), Not(y));
      if Not(x) in h {
        assert x !in h;
        assert {Not(x), y} <= h;
      } else {
        assert Not(y) in h && y !in h;
        assert {x, Not(y)} <= h;
      }
    }
    BlocksTwoClauses({Not(x), y}, {x, y}, {Not(x), Not(y)}, x, Not(y));
    BlocksTwoClauses({x, Not(y)}, {x, y}, {Not(x), Not(y)}, y, Not(x));
    OpposedPairsClean(x, y);
    MinimalBlocksAre(c, {{Not(x), y}, {x, Not(y)}});
  }

  lemma OpposedPairsClean<T>(x: Literal<T>, y: Literal<T>)
    requires x.term != y.term
    ensures Antichain({{Not(x), y}, {x, Not(y)}})
    ensures !Tautological({Not(x), y}) && !Tautological({x, Not(y)})
  {
  }

  /** `x & (~x | y)` is blocked only by `~x, ~y`: the pick `~x, x` is a
      tautology. */
  lemma NegateUnitAndOpposed<T>(x: Literal<T>, y: Literal<T>)
    requires x.term != y.term
    ensures Pruned(Negated({{x}, {Not(x), y}})) == {{Not(x), Not(y)}}
  {
    var c := {{x}, {Not(x), y}};
    forall h | Blocks(h, c) && !Tautological(h) ensures exists e :: e in {{Not(x), Not(y)}} && e <= h {
      BlockedOne(h, c, x);
      BlockedTwo(h, c, Not(x), y);
      assert x !in h;
      assert {Not(x), Not(y)} <= h;
    }
    BlocksTwoClauses({Not(x), Not(y)}, {x}, {Not(x), y}, x, y);
    MinimalBlocksAre(c, {{Not(x), Not(y)}});
  }

  // ---------------------------------------------------------------------
  // `clone` of a few small conjunctions
  // ---------------------------------------------------------------------

  lemma NotNot<T>(x: Literal<T>)
    ensures Not(Not(x)) == x
  {
  }

  /** An antichain of clauses without a tautology is what `_optimize` keeps. */
  lemma PrunedIdentity<T>(c: Conjunction<T>)
    requires Antichain(c) && forall d :: d in c ==> !Tautological(d)
    ensures Pruned(c) == c
  {
  }

  /** `clone` through the three passes of `optimize`, none of them empty. */
  lemma CloneOfSteps<T>(c: Conjunction<T>, c1: Conjunction<T>, c2: Conjunction<T>, c3: Conjunction<T>)
    requires Pruned(c) == c1 && c1 != {}
    requires Pruned(Negated(c1)) == c2 && c2 != {}
    requires Pruned(Negated(c2)) == c3 && c3 != {}
    ensures CloneOf(c) == Formula(NonTrivial, c3)
  {
  }

  /** `x & y` stays as it is. */
  lemma CloneOfTwoUnits<T>(x: Literal<T>, y: Literal<T>)
    requires x.term != y.term
    ensures CloneOf({{x}, {y}}) == Formula(NonTrivial, {{x}, {y}})
  {
    PrunedIdentity({{x}, {y}});
    NegateTwoUnits(x, y);
    NegatePair(Not(x), Not(y));
    NotNot(x);
    NotNot(y);
    CloneOfSteps({{x}, {y}}, {{x}, {y}}, {{Not(x), Not(y)}}, {{x}, {y}});
  }

  /** `x & y & z` stays as it is. */
  lemma CloneOfThreeUnits<T>(x: Literal<T>, y: Literal<T>, z: Literal<T>)
    requires x.term != y.term && x.term != z.term && y.term != z.term
    ensures CloneOf({{x}, {y}, {z}}) == Formula(NonTrivial, {{x}, {y}, {z}})
  {
    PrunedIdentity({{x}, {y}, {z}});
    NegateThreeUnits(x, y, z);
    NegateTriple(Not(x), Not(y), Not(z));
    NotNot(x);
    NotNot(y);
    NotNot(z);
    CloneOfSteps({{x}, {y}, {z}}, {{x}, {y}, {z}}, {{Not(x), Not(y), Not(z)}}, {{x}, {y}, {z}});
  }

  /** `x | y` stays as it is. */
  lemma CloneOfPair<T>(x: Literal<T>, y: Literal<T>)
    requires x.term != y.term
    ensures CloneOf({{x, y}}) == Formula(NonTrivial, {{x, y}})
  {
    PrunedIdentity({{x, y}});
    NegatePair(x, y);
    NegateTwoUnits(Not(x), Not(y));
    NotNot(x);
    NotNot(y);
    CloneOfSteps({{x, y}}, {{x, y}}, {{Not(x)}, {Not(y)}}, {{x, y}});
  }

  /** `x | y | z` stays as it is. */
  lemma CloneOfTriple<T>(x: Literal<T>, y: Literal<T>, z: Literal<T>)
    requires x.term != y.term && x.term != z.term && y.term != z.term
    ensures CloneOf({{x, y, z}}) == Formula(NonTrivial, {{x, y, z}})
  {
    PrunedIdentity({{x, y, z}});
    NegateTriple(x, y, z);
    NegateThreeUnits(Not(x), Not(y), Not(z));
    NotNot(x);
    NotNot(y);
    NotNot(z);
    CloneOfSteps({{x, y, z}}, {{x, y, z}}, {{Not(x)}, {Not(y)}, {Not(z)}}, {{x, y, z}});
  }

  /** `(x | y) & (x | z)` stays as it is. */
  lemma CloneOfSharedPair<T>(x: Literal<T>, y: Literal<T>, z: Literal<T>)
    requires x.term != y.term && x.term != z.term && y.term != z.term
    ensures CloneOf({{x, y}, {x, z}}) == Formula(NonTrivial, {{x, y}, {x, z}})
  {
    PrunedIdentity({{x, y}, {x, z}});
    NegateSharedPair(x, y, z);
    NegateUnitAndPair(Not(x), Not(y), Not(z));
    NotNot(x);
    NotNot(y);
    NotNot(z);
    CloneOfSteps({{x, y}, {x, z}}, {{x, y}, {x, z}}, {{Not(x)}, {Not(y), Not(z)}}, {{x, y}, {x, z}});
  }

  /** `(x | z) & (x | w) & (y | z) & (y | w)` stays as it is. */
  lemma CloneOfFourPairs<T>(x: Literal<T>, y: Literal<T>, z: Literal<T>, w: Literal<T>)
    requires x.term != y.term && x.term != z.term && x.term != w.term
    requires y.term != z.term && y.term != w.term && z.term != w.term
    ensures CloneOf({{x, z}, {x, w}, {y, z}, {y, w}}) == Formula(NonTrivial, {{x, z}, {x, w}, {y, z}, {y, w}})
  {
    var c := {{x, z}, {x, w}, {y, z}, {y, w}};
    FourPairsIdentity(x, y, z, w);
    NegateFourPairs(x, y, z, w);
    NegateTwoPairs(Not(x), Not(y), Not(z), Not(w));
    NotNot(x);
    NotNot(y);
    NotNot(z);
    NotNot(w);
    CloneOfSteps(c, c, {{Not(x), Not(y)}, {Not(z), Not(w)}}, c);
  }

  lemma FourPairsIdentity<T>(x: Literal<T>, y: Literal<T>, z: Literal<T>, w: Literal<T>)
    requires x.term != y.term && x.term != z.term && x.term != w.term
    requires y.term != z.term && y.term != w.term && z.term != w.term
    ensures Pruned({{x, z}, {x, w}, {y, z}, {y, w}}) == {{x, z}, {x, w}, {y, z}, {y, w}}
  {
    PrunedIdentity({{x, z}, {x, w}, {y, z}, {y, w}});
  }

  /** `~x`. */
  lemma InvertUnit<T>(x: Literal<T>)
    ensures Invert(Formula(NonTrivial, {{x}})) == Formula(NonTrivial, {{Not(x)}})
  {
    NegateUnit(x);
    NegateUnit(Not(x));
    NotNot(x);
    CloneOfSteps(Negated({{x}}), {{Not(x)}}, {{x}}, {{Not(x)}});
  }

  /** `~(x & y & z)`. */
  lemma InvertThreeUnits<T>(x: Literal<T>, y: Literal<T>, z: Literal<T>)
    requires x.term != y.term && x.term != z.term && y.term != z.term
    ensures Invert(Formula(NonTrivial, {{x}, {y}, {z}})) == Formula(NonTrivial, {{Not(x), Not(y), Not(z)}})
  {
    NegateThreeUnits(x, y, z);
    NegateTriple(Not(x), Not(y), Not(z));
    NotNot(x);
    NotNot(y);
    NotNot(z);
    CloneOfSteps(Negated({{x}, {y}, {z}}), {{Not(x), Not(y), Not(z)}}, {{x}, {y}, {z}}, {{Not(x), Not(y), Not(z)}});
  }

  /** `~(x | y | z)`. */
  lemma InvertTriple<T>(x: Literal<T>, y: Literal<T>, z: Literal<T>)
    requires x.term != y.term && x.term != z.term && y.term != z.term
    ensures Invert(Formula(NonTrivial, {{x, y, z}})) == Formula(NonTrivial, {{Not(x)}, {Not(y)}, {Not(z)}})
  {
    NegateTriple(x, y, z);
    NegateThreeUnits(Not(x), Not(y), Not(z));
    NotNot(x);
    NotNot(y);
    NotNot(z);
    CloneOfSteps(Negated({{x, y, z}}), {{Not(x)}, {Not(y)}, {Not(z)}}, {{x, y, z}}, {{Not(x)}, {Not(y)}, {Not(z)}});
  }

  /** `~((x | y) & (x | z))`. */
  lemma InvertSharedPair<T>(x: Literal<T>, y: Literal<T>, z: Literal<T>)
    requires x.term != y.term && x.term != z.term && y.term != z.term
    ensures Invert(Formula(NonTrivial, {{x, y}, {x, z}})) == Formula(NonTrivial, {{Not(x)}, {Not(y), Not(z)}})
  {
    NegateSharedPair(x, y, z);
    NegateUnitAndPair(Not(x), Not(y), Not(z));
    NotNot(x);
    NotNot(y);
    NotNot(z);
    CloneOfSteps(Negated({{x, y}, {x, z}}), {{Not(x)}, {Not(y), Not(z)}}, {{x, y}, {x, z}}, {{Not(x)}, {Not(y), Not(z)}});
  }

  // ---------------------------------------------------------------------
  // The formulas the doctests build, for any four distinct tags
  // ---------------------------------------------------------------------

  /** `tag` as a positive literal. */
  function Has<T(==)>(t: T): Literal<T> {
    Literal(t, false)
  }

  /** `tag` as a negative literal. */
  function Lacks<T(==)>(t: T): Literal<T> {
    Literal(t, true)
  }

  /** `FooTagQ(tag)`, which `a & x`, `a | x` and `~a` start from. */
  function Tag<T(==)>(t: T): Formula<T> {
    New(Some(t))
  }

  lemma PairwiseUnionsOneByTwo<T>(d: Clause<T>, e0: Clause<T>, e1: Clause<T>)
    ensures PairwiseUnions({d}, {e0, e1}) == {d + e0, d + e1}
  {
    assert d + e0 in PairwiseUnions({d}, {e0, e1});
    assert d + e1 in PairwiseUnions({d}, {e0, e1});
  }

  lemma PairwiseUnionsTwoByTwo<T>(d0: Clause<T>, d1: Clause<T>, e0: Clause<T>, e1: Clause<T>)
    ensures PairwiseUnions({d0, d1}, {e0, e1}) == {d0 + e0, d0 + e1, d1 + e0, d1 + e1}
  {
    var u := PairwiseUnions({d0, d1}, {e0, e1});
    assert d0 + e0 in u && d0 + e1 in u && d1 + e0 in u && d1 + e1 in u;
  }

  /** `~(a | b & c)` is `(~a) & (~b | ~c)`. */
  lemma NotAOrBAndC<T>(a: T, b: T, c: T)
    requires a != b && a != c && b != c
    ensures And(Tag(b), Term(c)) == Success(Formula(NonTrivial, {{Has(b)}, {Has(c)}}))
    ensures Or(Tag(a), Query(Formula(NonTrivial, {{Has(b)}, {Has(c)}})))
         == Success(Formula(NonTrivial, {{Has(a), Has(b)}, {Has(a), Has(c)}}))
    ensures Invert(Formula(NonTrivial, {{Has(a), Has(b)}, {Has(a), Has(c)}}))
         == Formula(NonTrivial, {{Lacks(a)}, {Lacks(b), Lacks(c)}})
  {
    assert {{Has(b)}} + {{Has(c)}} == {{Has(b)}, {Has(c)}};
    CloneOfTwoUnits(Has(b), Has(c));
    PairwiseUnionsOneByTwo({Has(a)}, {Has(b)}, {Has(c)});
    assert {Has(a)} + {Has(b)} == {Has(a), Has(b)} && {Has(a)} + {Has(c)} == {Has(a), Has(c)};
    CloneOfSharedPair(Has(a), Has(b), Has(c));
    InvertSharedPair(Has(a), Has(b), Has(c));
  }

  /** `(a & b) | (c & d)` is `(a | c) & (a | d) & (b | c) & (b | d)`. */
  lemma AAndBOrCAndD<T>(a: T, b: T, c: T, d: T)
    requires a != b && a != c && a != d && b != c && b != d && c != d
    ensures And(Tag(a), Term(b)) == Success(Formula(NonTrivial, {{Has(a)}, {Has(b)}}))
    ensures And(Tag(c), Term(d)) == Success(Formula(NonTrivial, {{Has(c)}, {Has(d)}}))
    ensures Or(Formula(NonTrivial, {{Has(a)}, {Has(b)}}), Query(Formula(NonTrivial, {{Has(c)}, {Has(d)}})))
         == Success(Formula(NonTrivial, {{Has(a), Has(c)}, {Has(a), Has(d)}, {Has(b), Has(c)}, {Has(b), Has(d)}}))
  {
    assert {{Has(a)}} + {{Has(b)}} == {{Has(a)}, {Has(b)}};
    assert {{Has(c)}} + {{Has(d)}} == {{Has(c)}, {Has(d)}};
    CloneOfTwoUnits(Has(a), Has(b));
    CloneOfTwoUnits(Has(c), Has(d));
    PairwiseUnionsTwoByTwo({Has(a)}, {Has(b)}, {Has(c)}, {Has(d)});
    assert {Has(a)} + {Has(c)} == {Has(a), Has(c)} && {Has(a)} + {Has(d)} == {Has(a), Has(d)};
    assert {Has(b)} + {Has(c)} == {Has(b), Has(c)} && {Has(b)} + {Has(d)} == {Has(b), Has(d)};
    CloneOfFourPairs(Has(a), Has(b), Has(c), Has(d));
  }

  /** `~~(a & b & c)` is `(a) & (b) & (c)` again. */
  lemma NotNotAAndBAndC<T>(a: T, b: T, c: T)
    requires a != b && a != c && b != c
    ensures And(Tag(a), Term(b)) == Success(Formula(NonTrivial, {{Has(a)}, {Has(b)}}))
    ensures And(Formula(NonTrivial, {{Has(a)}, {Has(b)}}), Term(c))
         == Success(Formula(NonTrivial, {{Has(a)}, {Has(b)}, {Has(c)}}))
    ensures Invert(Formula(NonTrivial, {{Has(a)}, {Has(b)}, {Has(c)}}))
         == Formula(NonTrivial, {{Lacks(a), Lacks(b), Lacks(c)}})
    ensures Invert(Formula(NonTrivial, {{Lacks(a), Lacks(b), Lacks(c)}}))
         == Formula(NonTrivial, {{Has(a)}, {Has(b)}, {Has(c)}})
  {
    assert {{Has(a)}} + {{Has(b)}} == {{Has(a)}, {Has(b)}};
    assert {{Has(a)}, {Has(b)}} + {{Has(c)}} == {{Has(a)}, {Has(b)}, {Has(c)}};
    CloneOfTwoUnits(Has(a), Has(b));
    CloneOfThreeUnits(Has(a), Has(b), Has(c));
    InvertThreeUnits(Has(a), Has(b), Has(c));
    InvertTriple(Lacks(a), Lacks(b), Lacks(c));
  }

  lemma AddToEachOne<T>(d: Clause<T>, l: Literal<T>)
    ensures AddToEach({d}, l) == {d + {l}}
  {
    assert d + {l} in AddToEach({d}, l);
  }

  /** `(~a & b) | (a & ~b)` is `(a | b) & (~a | ~b)`: two of the four pairwise
      unions are tautologies. */
  lemma ExclusiveOr<T>(a: T, b: T)
    requires a != b
    ensures Invert(Tag(a)) == Formula(NonTrivial, {{Lacks(a)}})
    ensures Invert(Tag(b)) == Formula(NonTrivial, {{Lacks(b)}})
    ensures And(Formula(NonTrivial, {{Lacks(a)}}), Term(b)) == Success(Formula(NonTrivial, {{Lacks(a)}, {Has(b)}}))
    ensures And(Tag(a), Query(Formula(NonTrivial, {{Lacks(b)}})))
         == Success(Formula(NonTrivial, {{Has(a)}, {Lacks(b)}}))
    ensures Or(Formula(NonTrivial, {{Lacks(a)}, {Has(b)}}), Query(Formula(NonTrivial, {{Has(a)}, {Lacks(b)}})))
         == Success(Formula(NonTrivial, {{Has(a), Has(b)}, {Lacks(a), Lacks(b)}}))
  {
    InvertUnit(Has(a));
    InvertUnit(Has(b));
    assert {{Lacks(a)}} + {{Has(b)}} == {{Lacks(a)}, {Has(b)}};
    CloneOfTwoUnits(Lacks(a), Has(b));
    assert {{Has(a)}} + {{Lacks(b)}} == {{Has(a)}, {Lacks(b)}};
    CloneOfTwoUnits(Has(a), Lacks(b));
    ExclusiveOrUnions(a, b);
    ExclusiveOrPruned(a, b);
    NegateOpposedPairs(Has(a), Has(b));
    NegateOpposedPairs(Lacks(a), Has(b));
    var u := {{Lacks(a), Has(a)}, {Lacks(a), Lacks(b)}, {Has(b), Has(a)}, {Has(b), Lacks(b)}};
    var c1 := {{Has(a), Has(b)}, {Lacks(a), Lacks(b)}};
    var c2 := {{Lacks(a), Has(b)}, {Has(a), Lacks(b)}};
    assert Not(Lacks(a)) == Has(a) && Not(Has(b)) == Lacks(b);
    CloneOfSteps(u, c1, c2, c1);
  }

  lemma ExclusiveOrUnions<T>(a: T, b: T)
    ensures PairwiseUnions({{Lacks(a)}, {Has(b)}}, {{Has(a)}, {Lacks(b)}})
         == {{Lacks(a), Has(a)}, {Lacks(a), Lacks(b)}, {Has(b), Has(a)}, {Has(b), Lacks(b)}}
  {
    PairwiseUnionsTwoByTwo({Lacks(a)}, {Has(b)}, {Has(a)}, {Lacks(b)});
    assert {Lacks(a)} + {Has(a)} == {Lacks(a), Has(a)} && {Lacks(a)} + {Lacks(b)} == {Lacks(a), Lacks(b)};
    assert {Has(b)} + {Has(a)} == {Has(b), Has(a)} && {Has(b)} + {Lacks(b)} == {Has(b), Lacks(b)};
  }

  lemma ExclusiveOrPruned<T>(a: T, b: T)
    requires a != b
    ensures Pruned({{Lacks(a), Has(a)}, {Lacks(a), Lacks(b)}, {Has(b), Has(a)}, {Has(b), Lacks(b)}})
         == {{Has(a), Has(b)}, {Lacks(a), Lacks(b)}}
  {
    var u := {{Lacks(a), Has(a)}, {Lacks(a), Lacks(b)}, {Has(b), Has(a)}, {Has(b), Lacks(b)}};
    assert Tautological({Lacks(a), Has(a)}) by { assert NegateLiteral(Has(a)) == Lacks(a); }
    assert Tautological({Has(b), Lacks(b)}) by { assert NegateLiteral(Has(b)) == Lacks(b); }
    assert {Has(b), Has(a)} == {Has(a), Has(b)};
    assert {Has(a), Has(b)} in Pruned(u);
    assert {Lacks(a), Lacks(b)} in Pruned(u);
  }

  /** `~a | a` is always true. */
  lemma NotAOrA<T>(a: T)
    ensures Invert(Tag(a)) == Formula(NonTrivial, {{Lacks(a)}})
    ensures Or(Formula(NonTrivial, {{Lacks(a)}}), Term(a)) == Success(Formula(AlwaysTrue, {}))
  {
    InvertUnit(Has(a));
    AddToEachOne({Lacks(a)}, Has(a));
    assert Tautological({Lacks(a)} + {Has(a)}) by { assert NegateLiteral(Has(a)) == Lacks(a); }
    assert Pruned({{Lacks(a)} + {Has(a)}}) == {};
  }

  /** `a & (~a | b)` is `(a) & (b)`. */
  lemma AAndNotAOrB<T>(a: T, b: T)
    requires a != b
    ensures Invert(Tag(a)) == Formula(NonTrivial, {{Lacks(a)}})
    ensures Or(Formula(NonTrivial, {{Lacks(a)}}), Term(b)) == Success(Formula(NonTrivial, {{Lacks(a), Has(b)}}))
    ensures And(Tag(a), Query(Formula(NonTrivial, {{Lacks(a), Has(b)}})))
         == Success(Formula(NonTrivial, {{Has(a)}, {Has(b)}}))
  {
    InvertUnit(Has(a));
    AddToEachOne({Lacks(a)}, Has(b));
    assert {Lacks(a)} + {Has(b)} == {Lacks(a), Has(b)};
    CloneOfPair(Lacks(a), Has(b));
    var c := {{Has(a)}, {Lacks(a), Has(b)}};
    assert {{Has(a)}} + {{Lacks(a), Has(b)}} == c;
    PrunedIdentity(c);
    NegateUnitAndOpposed(Has(a), Has(b));
    NegatePair(Lacks(a), Lacks(b));
    CloneOfSteps(c, c, {{Lacks(a), Lacks(b)}}, {{Has(a)}, {Has(b)}});
  }

  // ---------------------------------------------------------------------
  // The doctests: tags named "A" to "D", printed by `__repr__`
  // ---------------------------------------------------------------------

  /** A tag prints as its name. */
  function Label(t: string): string {
    t
  }

  /** `repr(~(a | b & c)) == "(~A) & (~B | ~C)"`. */
  lemma ReprNotAOrBAndC()
    ensures Repr(Invert(Or(Tag("A"), Query(And(Tag("B"), Term("C")).value)).value), Label) == "(~A) & (~B | ~C)"
  {
    NotAOrBAndC("A", "B", "C");
    NotAOrBAndCListing();
    NotAOrBAndCText();
  }

  lemma NotAOrBAndCListing()
    ensures Repr(Formula(NonTrivial, {{Lacks("A")}, {Lacks("B"), Lacks("C")}}), Label)
         == JoinClauses([[("A", true)], [("B", true), ("C", true)]])
  {
    KeysOne(Lacks("A"), Label, ("A", true));
    KeysTwo(Lacks("B"), Lacks("C"), Label, ("B", true), ("C", true));
    PrintTwo({Lacks("A")}, {Lacks("B"), Lacks("C")}, Label, [("A", true)], [("B", true), ("C", true)]);
  }

  lemma NotAOrBAndCText()
    ensures JoinClauses([[("A", true)], [("B", true), ("C", true)]]) == "(~A) & (~B | ~C)"
  {
    ClauseOfOne(("A", true), "(~A)");
    ClauseOfTwo(("B", true), ("C", true), "(~B | ~C)");
    JoinTwo([("A", true)], [("B", true), ("C", true)], "(~A)", "(~B | ~C)", "(~A) & (~B | ~C)");
  }

  /** `repr((a & b) | (c & d)) == "(A | C) & (A | D) & (B | C) & (B | D)"`. */
  lemma ReprAAndBOrCAndD()
    ensures var ab := And(Tag("A"), Term("B")); var cd := And(Tag("C"), Term("D"));
            && ab.Success? && cd.Success? && ab.value.trivial == NonTrivial
            && var q := Or(ab.value, Query(cd.value));
               q.Success? && Repr(q.value, Label) == "(A | C) & (A | D) & (B | C) & (B | D)"
  {
    AAndBOrCAndD("A", "B", "C", "D");
    AAndBOrCAndDListing();
    AAndBOrCAndDText();
  }

  lemma AAndBOrCAndDListing()
    ensures Repr(Formula(NonTrivial, {{Has("A"), Has("C")}, {Has("A"), Has("D")}, {Has("B"), Has("C")}, {Has("B"), Has("D")}}), Label)
         == JoinClauses([[("A", false), ("C", false)], [("A", false), ("D", false)],
                         [("B", false), ("C", false)], [("B", false), ("D", false)]])
  {
    PositivePairKeys("A", "C");
    PositivePairKeys("A", "D");
    PositivePairKeys("B", "C");
    PositivePairKeys("B", "D");
    AAndBOrCAndDOrder();
    PrintFour({Has("A"), Has("C")}, {Has("A"), Has("D")}, {Has("B"), Has("C")}, {Has("B"), Has("D")}, Label,
              [("A", false), ("C", false)], [("A", false), ("D", false)],
              [("B", false), ("C", false)], [("B", false), ("D", false)]);
  }

  lemma AAndBOrCAndDOrder()
    ensures KeysLe([("A", false), ("C", false)], [("A", false), ("D", false)])
    ensures KeysLe([("A", false), ("D", false)], [("B", false), ("C", false)])
    ensures KeysLe([("B", false), ("C", false)], [("B", false), ("D", false)])
  {
    assert [("A", false), ("C", false)][1..] == [("C", false)];
    assert [("A", false), ("D", false)][1..] == [("D", false)];
    assert [("B", false), ("C", false)][1..] == [("C", false)];
    assert [("B", false), ("D", false)][1..] == [("D", false)];
  }

  /** The listing of `(s | t)` for two distinct names in ascending order. */
  lemma PositivePairKeys(s: string, t: string)
    requires s != t && StrLe(s, t)
    ensures ClauseKeys({Has(s), Has(t)}, Label) == [(s, false), (t, false)]
  {
    KeysTwo(Has(s), Has(t), Label, (s, false), (t, false));
  }

  lemma AAndBOrCAndDText()
    ensures JoinClauses([[("A", false), ("C", false)], [("A", false), ("D", false)],
                         [("B", false), ("C", false)], [("B", false), ("D", false)]])
         == "(A | C) & (A | D) & (B | C) & (B | D)"
  {
    AAndBOrCAndDClauses();
    AAndBOrCAndDHalves();
    AAndBOrCAndDWhole();
    JoinFour([("A", false), ("C", false)], [("A", false), ("D", false)],
             [("B", false), ("C", false)], [("B", false), ("D", false)],
             "(A | C)", "(A | D)", "(B | C)", "(B | D)",
             "(A | C) & (A | D)", "(B | C) & (B | D)", "(A | C) & (A | D) & (B | C) & (B | D)");
  }

  lemma AAndBOrCAndDHalves()
    ensures "(A | C) & (A | D)" == "(A | C)" + " & " + "(A | D)"
    ensures "(B | C) & (B | D)" == "(B | C)" + " & " + "(B | D)"
  {
  }

  lemma AAndBOrCAndDWhole()
    ensures "(A | C) & (A | D) & (B | C) & (B | D)" == "(A | C) & (A | D)" + " & " + "(B | C) & (B | D)"
  {
  }

  lemma AAndBOrCAndDClauses()
    ensures "(" + JoinLiterals([("A", false), ("C", false)]) + ")" == "(A | C)"
    ensures "(" + JoinLiterals([("A", false), ("D", false)]) + ")" == "(A | D)"
    ensures "(" + JoinLiterals([("B", false), ("C", false)]) + ")" == "(B | C)"
    ensures "(" + JoinLiterals([("B", false), ("D", false)]) + ")" == "(B | D)"
  {
    PositivePairText("A", "C");
    PositivePairText("A", "D");
    PositivePairText("B", "C");
    PositivePairText("B", "D");
  }

  /** `(s | t)` for two names. */
  lemma PositivePairText(s: string, t: string)
    ensures "(" + JoinLiterals([(s, false), (t, false)]) + ")" == "(" + s + " | " + t + ")"
  {
    ClauseOfTwo((s, false), (t, false), "(" + s + " | " + t + ")");
  }

  /** `repr((~a & b) | (a & ~b)) == "(A | B) & (~A | ~B)"`. */
  lemma ReprExclusiveOr()
    ensures var na := Invert(Tag("A")); var nb := Invert(Tag("B"));
            && na.trivial == NonTrivial
            && var left := And(na, Term("B")); var right := And(Tag("A"), Query(nb));
               && left.Success? && right.Success? && left.value.trivial == NonTrivial
               && var q := Or(left.value, Query(right.value));
                  q.Success? && Repr(q.value, Label) == "(A | B) & (~A | ~B)"
  {
    ExclusiveOr("A", "B");
    ExclusiveOrListing();
    ExclusiveOrText();
  }

  lemma ExclusiveOrListing()
    ensures Repr(Formula(NonTrivial, {{Has("A"), Has("B")}, {Lacks("A"), Lacks("B")}}), Label)
         == JoinClauses([[("A", false), ("B", false)], [("A", true), ("B", true)]])
  {
    PositivePairKeys("A", "B");
    KeysTwo(Lacks("A"), Lacks("B"), Label, ("A", true), ("B", true));
    PrintTwo({Has("A"), Has("B")}, {Lacks("A"), Lacks("B")}, Label,
             [("A", false), ("B", false)], [("A", true), ("B", true)]);
  }

  lemma ExclusiveOrText()
    ensures JoinClauses([[("A", false), ("B", false)], [("A", true), ("B", true)]]) == "(A | B) & (~A | ~B)"
  {
    PositivePairText("A", "B");
    NegativePairText("A", "B");
    ExclusiveOrWhole();
    JoinTwo([("A", false), ("B", false)], [("A", true), ("B", true)], "(A | B)", "(~A | ~B)", "(A | B) & (~A | ~B)");
  }

  lemma ExclusiveOrWhole()
    ensures "(A | B) & (~A | ~B)" == "(A | B)" + " & " + "(~A | ~B)"
    ensures "(~A | ~B)" == "(" + "~" + "A" + " | " + "~" + "B" + ")"
  {
  }

  /** `(~s | ~t)` for two names. */
  lemma NegativePairText(s: string, t: string)
    ensures "(" + JoinLiterals([(s, true), (t, true)]) + ")" == "(" + "~" + s + " | " + "~" + t + ")"
  {
    ClauseOfTwo((s, true), (t, true), "(" + "~" + s + " | " + "~" + t + ")");
  }

  /** `repr(~~(a & b & c)) == "(A) & (B) & (C)"`. */
  lemma ReprNotNotAAndBAndC()
    ensures var ab := And(Tag("A"), Term("B"));
            && ab.Success? && ab.value.trivial == NonTrivial
            && var abc := And(ab.value, Term("C"));
               abc.Success? && Repr(Invert(Invert(abc.value)), Label) == "(A) & (B) & (C)"
  {
    NotNotAAndBAndC("A", "B", "C");
    NotNotAAndBAndCListing();
    NotNotAAndBAndCText();
  }

  lemma NotNotAAndBAndCListing()
    ensures Repr(Formula(NonTrivial, {{Has("A")}, {Has("B")}, {Has("C")}}), Label)
         == JoinClauses([[("A", false)], [("B", false)], [("C", false)]])
  {
    KeysOne(Has("A"), Label, ("A", false));
    KeysOne(Has("B"), Label, ("B", false));
    KeysOne(Has("C"), Label, ("C", false));
    PrintThree({Has("A")}, {Has("B")}, {Has("C")}, Label, [("A", false)], [("B", false)], [("C", false)]);
  }

  lemma NotNotAAndBAndCText()
    ensures JoinClauses([[("A", false)], [("B", false)], [("C", false)]]) == "(A) & (B) & (C)"
  {
    ClauseOfOne(("A", false), "(A)");
    ClauseOfOne(("B", false), "(B)");
    ClauseOfOne(("C", false), "(C)");
    JoinThree([("A", false)], [("B", false)], [("C", false)], "(A)", "(B)", "(C)", "(B) & (C)", "(A) & (B) & (C)");
  }

  /** `repr(~a | a) == "true"`. */
  lemma ReprNotAOrA()
    ensures var na := Invert(Tag("A"));
            && na.trivial == NonTrivial
            && var q := Or(na, Term("A"));
               q.Success? && Repr(q.value, Label) == "true"
  {
    NotAOrA("A");
  }

  /** `repr(a & (~a | b)) == "(A) & (B)"`. */
  lemma ReprAAndNotAOrB()
    ensures var na := Invert(Tag("A"));
            && na.trivial == NonTrivial
            && var nab := Or(na, Term("B"));
               && nab.Success?
               && var q := And(Tag("A"), Query(nab.value));
                  q.Success? && Repr(q.value, Label) == "(A) & (B)"
  {
    AAndNotAOrB("A", "B");
    AAndNotAOrBListing();
    AAndNotAOrBText();
  }

  lemma AAndNotAOrBListing()
    ensures Repr(Formula(NonTrivial, {{Has("A")}, {Has("B")}}), Label) == JoinClauses([[("A", false)], [("B", false)]])
  {
    KeysOne(Has("A"), Label, ("A", false));
    KeysOne(Has("B"), Label, ("B", false));
    PrintTwo({Has("A")}, {Has("B")}, Label, [("A", false)], [("B", false)]);
  }

  lemma AAndNotAOrBText()
    ensures JoinClauses([[("A", false)], [("B", false)]]) == "(A) & (B)"
  {
    ClauseOfOne(("A", false), "(A)");
    ClauseOfOne(("B", false), "(B)");
    JoinTwo([("A", false)], [("B", false)], "(A)", "(B)", "(A) & (B)");
  }
}
