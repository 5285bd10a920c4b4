/** `ManyRelatedJoinQ.__repr__`: the clauses of a formula rendered as text,
    each clause's `(label, negated)` pairs sorted and the clauses sorted as
    lists, the way Python's `sorted` orders them. Two terms with one label
    give two equal pairs, and two clauses with one listing give two equal
    lists: `sorted` keeps both. */
module ManyRelatedJoinRepr {
  import opened PythonOrder
  import opened ManyRelatedJoin

  /** The values `f` takes on the members of `s`, one for each member, so
      that two members with one value give it twice, as a list built over
      the members does. */
  ghost function Tally<A, B>(s: set<A>, f: A -> B): multiset<B>
    decreases |s|
  {
    if s == {} then multiset{}
    else
      var a :| a in s;
      Tally(s - {a}, f) + multiset{f(a)}
  }

  /** Any member may be counted last. */
  lemma {:induction false} TallyPick<A, B>(s: set<A>, f: A -> B, a: A)
    requires a in s
    ensures Tally(s, f) == Tally(s - {a}, f) + multiset{f(a)}
    decreases |s|
  {
    var b :| b in s && Tally(s, f) == Tally(s - {b}, f) + multiset{f(b)};
    if b != a {
      TallyPick(s - {b}, f, a);
      TallyPick(s - {a}, f, b);
      assert s - {b} - {a} == s - {a} - {b};
    }
  }

  /** One value per member. */
  lemma {:induction false} TallySize<A, B>(s: set<A>, f: A -> B)
    ensures |Tally(s, f)| == |s|
    decreases |s|
  {
    if s != {} {
      var a :| a in s;
      TallyPick(s, f, a);
      TallySize(s - {a}, f);
    }
  }

  lemma TallyAdd<A, B>(s: set<A>, f: A -> B, a: A)
    requires a !in s
    ensures Tally(s + {a}, f) == Tally(s, f) + multiset{f(a)}
  {
    TallyPick(s + {a}, f, a);
    assert s + {a} - {a} == s;
  }

  lemma TallyOne<A, B>(a0: A, f: A -> B)
    ensures Tally({a0}, f) == multiset{f(a0)}
  {
    TallyAdd({}, f, a0);
    assert {} + {a0} == {a0};
  }

  lemma TallyTwo<A, B>(a0: A, a1: A, f: A -> B)
    requires a0 != a1
    ensures Tally({a0, a1}, f) == multiset{f(a0), f(a1)}
  {
    TallyOne(a0, f);
    TallyAdd({a0}, f, a1);
    assert {a0} + {a1} == {a0, a1};
  }

  lemma TallyThree<A, B>(a0: A, a1: A, a2: A, f: A -> B)
    requires a0 != a1 && a0 != a2 && a1 != a2
    ensures Tally({a0, a1, a2}, f) == multiset{f(a0), f(a1), f(a2)}
  {
    TallyTwo(a0, a1, f);
    TallyAdd({a0, a1}, f, a2);
    assert {a0, a1} + {a2} == {a0, a1, a2};
  }

  lemma TallyFour<A, B>(a0: A, a1: A, a2: A, a3: A, f: A -> B)
    requires a0 != a1 && a0 != a2 && a0 != a3 && a1 != a2 && a1 != a3 && a2 != a3
    ensures Tally({a0, a1, a2, a3}, f) == multiset{f(a0), f(a1), f(a2), f(a3)}
  {
    TallyThree(a0, a1, a2, f);
    TallyAdd({a0, a1, a2}, f, a3);
    assert {a0, a1, a2} + {a3} == {a0, a1, a2, a3};
  }

  /** The pair `(unicode(obj), neg)` of a literal; `name` is `unicode`. */
  function KeyOf<T>(name: T -> string): Literal<T> -> Key
  {
    (l: Literal<T>) => (name(l.term), l.negated)
  }

  /** The pairs of a clause, one per literal. */
  ghost function KeysOf<T>(d: Clause<T>, name: T -> string): (r: multiset<Key>)
    ensures |r| == |d|
  {
    TallySize(d, KeyOf(name));
    Tally(d, KeyOf(name))
  }

  function ShowLiteral(k: Key): string
  {
    (if k.1 then "~" else "") + k.0
  }

  /** The literals of one clause joined by `" | "`. */
  function JoinLiterals(ks: seq<Key>): string
    decreases |ks|
  {
    if |ks| == 0 then ""
    else if |ks| == 1 then ShowLiteral(ks[0])
    else ShowLiteral(ks[0]) + " | " + JoinLiterals(ks[1..])
  }

  /** The parenthesised clauses joined by `" & "`. */
  function JoinClauses(groups: seq<seq<Key>>): (r: string)
    ensures |groups| > 0 ==> |r| > 0 && r[0] == '('
    decreases |groups|
  {
    if |groups| == 0 then ""
    else
      var first := "(" + JoinLiterals(groups[0]) + ")";
      if |groups| == 1 then first else first + " & " + JoinClauses(groups[1..])
  }

  lemma JoinClausesCons(g: seq<Key>, gs: seq<seq<Key>>)
    requires |gs| > 0
    ensures JoinClauses([g] + gs) == "(" + JoinLiterals(g) + ")" + " & " + JoinClauses(gs)
  {
    assert ([g] + gs)[1..] == gs;
    assert ([g] + gs)[0] == g;
  }

  lemma JoinPair(a: Key, b: Key)
    ensures JoinLiterals([a, b]) == ShowLiteral(a) + " | " + ShowLiteral(b)
  {
    assert [a, b][1..] == [b];
  }

  /** A one-literal clause in parentheses. */
  lemma ClauseOfOne(a: Key, c: string)
    requires "(" + ShowLiteral(a) + ")" == c
    ensures "(" + JoinLiterals([a]) + ")" == c
  {
  }

  /** A two-literal clause in parentheses. */
  lemma ClauseOfTwo(a: Key, b: Key, c: string)
    requires "(" + ShowLiteral(a) + " | " + ShowLiteral(b) + ")" == c
    ensures "(" + JoinLiterals([a, b]) + ")" == c
  {
    JoinPair(a, b);
  }

  /** Two rendered clauses joined by `" & "`. */
  lemma JoinTwo(g0: seq<Key>, g1: seq<Key>, c0: string, c1: string, whole: string)
    requires "(" + JoinLiterals(g0) + ")" == c0 && "(" + JoinLiterals(g1) + ")" == c1
    requires whole == c0 + " & " + c1
    ensures JoinClauses([g0, g1]) == whole
  {
    assert [g0, g1] == [g0] + [g1];
    JoinClausesCons(g0, [g1]);
  }

  /** Three rendered clauses joined by `" & "`. */
  lemma JoinThree(g0: seq<Key>, g1: seq<Key>, g2: seq<Key>, c0: string, c1: string, c2: string,
                  right: string, whole: string)
    requires "(" + JoinLiterals(g0) + ")" == c0 && "(" + JoinLiterals(g1) + ")" == c1
    requires "(" + JoinLiterals(g2) + ")" == c2
    requires right == c1 + " & " + c2 && whole == c0 + " & " + right
    ensures JoinClauses([g0, g1, g2]) == whole
  {
    JoinTwo(g1, g2, c1, c2, right);
    assert [g0, g1, g2] == [g0] + [g1, g2];
    JoinClausesCons(g0, [g1, g2]);
  }

  /** Four rendered clauses joined by `" & "`, as two halves. */
  lemma JoinFour(g0: seq<Key>, g1: seq<Key>, g2: seq<Key>, g3: seq<Key>,
                 c0: string, c1: string, c2: string, c3: string, left: string, right: string, whole: string)
    requires "(" + JoinLiterals(g0) + ")" == c0 && "(" + JoinLiterals(g1) + ")" == c1
    requires "(" + JoinLiterals(g2) + ")" == c2 && "(" + JoinLiterals(g3) + ")" == c3
    requires left == c0 + " & " + c1 && right == c2 + " & " + c3 && whole == left + " & " + right
    ensures JoinClauses([g0, g1, g2, g3]) == whole
  {
    var tail := c1 + " & " + right;
    JoinThree(g1, g2, g3, c1, c2, c3, right, tail);
    assert [g0, g1, g2, g3] == [g0] + [g1, g2, g3];
    JoinClausesCons(g0, [g1, g2, g3]);
    Assoc(c0 + " & ", c1 + " & ", right);
    Assoc(c0 + " & ", c1, " & ");
  }

  lemma Assoc(a: string, b: string, c: string)
    ensures a + (b + c) == a + b + c
  {
  }

  /** `__repr__`: `"true"` for an empty clause set (the `False` constant
      included), otherwise each clause's pairs sorted, the clauses sorted
      as lists, and the result rendered. */
  ghost function Repr<T>(q: Formula<T>, name: T -> string): (r: string)
    ensures r == "true" <==> q.conjunction == {}
  {
    if q.conjunction == {} then "true"
    else JoinClauses(SortedKeyLists(ClauseBag(q.conjunction, name)))
  }

  /** A clause as its sorted list of pairs. */
  ghost function ClauseKeys<T>(d: Clause<T>, name: T -> string): (r: seq<Key>)
    ensures multiset(r) == KeysOf(d, name)
  {
    SortedKeys(KeysOf(d, name))
  }

  ghost function ClauseKeysOf<T>(name: T -> string): Clause<T> -> seq<Key>
  {
    (d: Clause<T>) => ClauseKeys(d, name)
  }

  /** The sorted lists of pairs of the clauses, one per clause. */
  ghost function ClauseBag<T>(c: Conjunction<T>, name: T -> string): (r: multiset<seq<Key>>)
    ensures |r| == |c|
  {
    TallySize(c, ClauseKeysOf(name));
    Tally(c, ClauseKeysOf(name))
  }

  /** A clause whose pairs are those of an ascending list is printed as
      that list. */
  lemma ClauseKeysOfListing<T>(d: Clause<T>, name: T -> string, ks: seq<Key>)
    requires KeysOf(d, name) == multiset(ks) && Ascending(ks, KeyLe)
    ensures ClauseKeys(d, name) == ks
  {
    SortedKeysOfAscending(ks);
  }

  /** `__repr__` prints the clauses in the order of their sorted pair
      lists, each list as often as a clause has it. */
  lemma ReprOfListing<T>(q: Formula<T>, name: T -> string, groups: seq<seq<Key>>)
    requires q.conjunction != {}
    requires ClauseBag(q.conjunction, name) == multiset(groups)
    requires Ascending(groups, KeysLe)
    ensures Repr(q, name) == JoinClauses(groups)
  {
    SortedKeyListsOfAscending(groups);
  }

  lemma KeyOfApply<T>(name: T -> string, l: Literal<T>)
    ensures KeyOf(name)(l) == (name(l.term), l.negated)
  {
  }

  lemma ClauseKeysOfApply<T>(name: T -> string, d: Clause<T>)
    ensures ClauseKeysOf(name)(d) == ClauseKeys(d, name)
  {
  }

  /** A one-literal clause lists its one pair. */
  lemma KeysOne<T>(l: Literal<T>, name: T -> string, k: Key)
    requires (name(l.term), l.negated) == k
    ensures ClauseKeys({l}, name) == [k]
  {
    KeyOfApply(name, l);
    TallyOne(l, KeyOf(name));
    ClauseKeysOfListing({l}, name, [k]);
  }

  /** A two-literal clause lists its pairs in order. */
  lemma KeysTwo<T>(l0: Literal<T>, l1: Literal<T>, name: T -> string, k0: Key, k1: Key)
    requires l0 != l1 && (name(l0.term), l0.negated) == k0 && (name(l1.term), l1.negated) == k1
    requires KeyLe(k0, k1)
    ensures ClauseKeys({l0, l1}, name) == [k0, k1]
  {
    KeyOfApply(name, l0);
    KeyOfApply(name, l1);
    TallyTwo(l0, l1, KeyOf(name));
    assert multiset{k0, k1} == multiset([k0, k1]);
    ClauseKeysOfListing({l0, l1}, name, [k0, k1]);
  }

  /** A formula of one clause prints that clause. */
  lemma PrintOne<T>(d0: Clause<T>, name: T -> string, g0: seq<Key>)
    requires ClauseKeys(d0, name) == g0
    ensures Repr(Formula(NonTrivial, {d0}), name) == JoinClauses([g0])
  {
    ClauseKeysOfApply(name, d0);
    TallyOne(d0, ClauseKeysOf(name));
    ReprOfListing(Formula(NonTrivial, {d0}), name, [g0]);
  }

  /** A formula of two clauses prints them in the order of their lists. */
  lemma PrintTwo<T>(d0: Clause<T>, d1: Clause<T>, name: T -> string, g0: seq<Key>, g1: seq<Key>)
    requires d0 != d1 && ClauseKeys(d0, name) == g0 && ClauseKeys(d1, name) == g1
    requires KeysLe(g0, g1)
    ensures Repr(Formula(NonTrivial, {d0, d1}), name) == JoinClauses([g0, g1])
  {
    ClauseKeysOfApply(name, d0);
    ClauseKeysOfApply(name, d1);
    TallyTwo(d0, d1, ClauseKeysOf(name));
    BagTwo(g0, g1);
    AscendingTwo(g0, g1);
    ReprOfListing(Formula(NonTrivial, {d0, d1}), name, [g0, g1]);
  }

  lemma BagTwo<X>(x0: X, x1: X)
    ensures multiset{x0, x1} == multiset([x0, x1])
  {
  }

  lemma BagThree<X>(x0: X, x1: X, x2: X)
    ensures multiset{x0, x1, x2} == multiset([x0, x1, x2])
  {
  }

  lemma BagFour<X>(x0: X, x1: X, x2: X, x3: X)
    ensures multiset{x0, x1, x2, x3} == multiset([x0, x1, x2, x3])
  {
  }

  lemma AscendingTwo(g0: seq<Key>, g1: seq<Key>)
    requires KeysLe(g0, g1)
    ensures Ascending([g0, g1], KeysLe)
  {
    var gs := [g0, g1];
    forall i, j | 0 <= i < j < |gs| ensures KeysLe(gs[i], gs[j]) {
      assert i == 0 && j == 1;
    }
  }

  lemma AscendingThree(g0: seq<Key>, g1: seq<Key>, g2: seq<Key>)
    requires KeysLe(g0, g1) && KeysLe(g1, g2)
    ensures Ascending([g0, g1, g2], KeysLe)
  {
    KeysLeTransitive(g0, g1, g2);
    var gs := [g0, g1, g2];
    forall i, j | 0 <= i < j < |gs| ensures KeysLe(gs[i], gs[j]) {
      assert i == 0 || i == 1;
    }
  }

  lemma AscendingFour(g0: seq<Key>, g1: seq<Key>, g2: seq<Key>, g3: seq<Key>)
    requires KeysLe(g0, g1) && KeysLe(g1, g2) && KeysLe(g2, g3)
    ensures Ascending([g0, g1, g2, g3], KeysLe)
  {
    KeysLeTransitive(g0, g1, g2);
    KeysLeTransitive(g1, g2, g3);
    KeysLeTransitive(g0, g2, g3);
    var gs := [g0, g1, g2, g3];
    forall i, j | 0 <= i < j < |gs| ensures KeysLe(gs[i], gs[j]) {
      assert i == 0 || i == 1 || i == 2;
    }
  }

  /** A formula of three clauses prints them in the order of their lists. */
  lemma PrintThree<T>(d0: Clause<T>, d1: Clause<T>, d2: Clause<T>, name: T -> string,
                      g0: seq<Key>, g1: seq<Key>, g2: seq<Key>)
    requires d0 != d1 && d0 != d2 && d1 != d2
    requires ClauseKeys(d0, name) == g0 && ClauseKeys(d1, name) == g1 && ClauseKeys(d2, name) == g2
    requires KeysLe(g0, g1) && KeysLe(g1, g2)
    ensures Repr(Formula(NonTrivial, {d0, d1, d2}), name) == JoinClauses([g0, g1, g2])
  {
    ClauseKeysOfApply(name, d0);
    ClauseKeysOfApply(name, d1);
    ClauseKeysOfApply(name, d2);
    TallyThree(d0, d1, d2, ClauseKeysOf(name));
    BagThree(g0, g1, g2);
    AscendingThree(g0, g1, g2);
    ReprOfListing(Formula(NonTrivial, {d0, d1, d2}), name, [g0, g1, g2]);
  }

  /** A formula of four clauses prints them in the order of their lists. */
  lemma PrintFour<T>(d0: Clause<T>, d1: Clause<T>, d2: Clause<T>, d3: Clause<T>, name: T -> string,
                     g0: seq<Key>, g1: seq<Key>, g2: seq<Key>, g3: seq<Key>)
    requires d0 != d1 && d0 != d2 && d0 != d3 && d1 != d2 && d1 != d3 && d2 != d3
    requires ClauseKeys(d0, name) == g0 && ClauseKeys(d1, name) == g1
    requires ClauseKeys(d2, name) == g2 && ClauseKeys(d3, name) == g3
    requires KeysLe(g0, g1) && KeysLe(g1, g2) && KeysLe(g2, g3)
    ensures Repr(Formula(NonTrivial, {d0, d1, d2, d3}), name) == JoinClauses([g0, g1, g2, g3])
  {
    ClauseBagFour(d0, d1, d2, d3, name, g0, g1, g2, g3);
    AscendingFour(g0, g1, g2, g3);
    ReprOfListing(Formula(NonTrivial, {d0, d1, d2, d3}), name, [g0, g1, g2, g3]);
  }

  lemma ClauseBagFour<T>(d0: Clause<T>, d1: Clause<T>, d2: Clause<T>, d3: Clause<T>, name: T -> string,
                         g0: seq<Key>, g1: seq<Key>, g2: seq<Key>, g3: seq<Key>)
    requires d0 != d1 && d0 != d2 && d0 != d3 && d1 != d2 && d1 != d3 && d2 != d3
    requires ClauseKeys(d0, name) == g0 && ClauseKeys(d1, name) == g1
    requires ClauseKeys(d2, name) == g2 && ClauseKeys(d3, name) == g3
    ensures ClauseBag({d0, d1, d2, d3}, name) == multiset([g0, g1, g2, g3])
  {
    ClauseKeysOfApply(name, d0);
    ClauseKeysOfApply(name, d1);
    ClauseKeysOfApply(name, d2);
    ClauseKeysOfApply(name, d3);
    TallyFour(d0, d1, d2, d3, ClauseKeysOf(name));
    BagFour(g0, g1, g2, g3);
  }

  /** Every object printed as `A`. */
  function Anonymous(t: int): string
  {
    "A"
  }

  /** Two terms with one label print that label twice: `(A | A)`. */
  lemma ReprKeepsRepeatedLiterals()
    ensures Repr(Formula(NonTrivial, {{Literal(1, false), Literal(2, false)}}), Anonymous) == "(A | A)"
  {
    RepeatedLiteralsListing();
    RepeatedLiteralsText();
  }

  lemma RepeatedLiteralsText()
    ensures JoinClauses([[("A", false), ("A", false)]]) == "(A | A)"
  {
    ClauseOfTwo(("A", false), ("A", false), "(A | A)");
  }

  lemma RepeatedLiteralsListing()
    ensures Repr(Formula(NonTrivial, {{Literal(1, false), Literal(2, false)}}), Anonymous)
            == JoinClauses([[("A", false), ("A", false)]])
  {
    KeysTwo(Literal(1, false), Literal(2, false), Anonymous, ("A", false), ("A", false));
    PrintOne({Literal(1, false), Literal(2, false)}, Anonymous, [("A", false), ("A", false)]);
  }

  /** Two clauses with one listing print it twice: `(A) & (A)`. */
  lemma ReprKeepsRepeatedClauses()
    ensures Repr(Formula(NonTrivial, {{Literal(1, false)}, {Literal(2, false)}}), Anonymous) == "(A) & (A)"
  {
    RepeatedClausesListing();
    RepeatedClausesText();
  }

  lemma RepeatedClausesText()
    ensures JoinClauses([[("A", false)], [("A", false)]]) == "(A) & (A)"
  {
    JoinTwo([("A", false)], [("A", false)], "(A)", "(A)", "(A) & (A)");
  }

  lemma RepeatedClausesListing()
    ensures Repr(Formula(NonTrivial, {{Literal(1, false)}, {Literal(2, false)}}), Anonymous)
            == JoinClauses([[("A", false)], [("A", false)]])
  {
    var g := [("A", false)];
    KeysOne(Literal(1, false), Anonymous, ("A", false));
    KeysOne(Literal(2, false), Anonymous, ("A", false));
    PrintTwo({Literal(1, false)}, {Literal(2, false)}, Anonymous, g, g);
  }
}
