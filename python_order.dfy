/** Python's ordering of strings, of `(label, flag)` pairs and of lists of
    such pairs, and `sorted` over a multiset of values under a total
    order. Strings compare code point by code point, a proper prefix
    first; `False` sorts before `True`; lists and tuples compare
    lexicographically. */
module PythonOrder {

  /** `a <= b` for strings. */
  predicate StrLe(a: string, b: string)
    decreases |a|
  {
    |a| == 0 || (|b| > 0 && (a[0] < b[0] || (a[0] == b[0] && StrLe(a[1..], b[1..]))))
  }

  /** A `(label, negated)` pair as `__repr__` sorts it. */
  type Key = (string, bool)

  /** `x <= y` for `(label, negated)` tuples. */
  predicate KeyLe(x: Key, y: Key)
  {
    if x.0 != y.0 then StrLe(x.0, y.0) else !x.1 || y.1
  }

  /** `s <= t` for lists of tuples. */
  predicate KeysLe(s: seq<Key>, t: seq<Key>)
    decreases |s|
  {
    |s| == 0 || (|t| > 0 && (if s[0] != t[0] then KeyLe(s[0], t[0]) else KeysLe(s[1..], t[1..])))
  }

  /** A total order: total, antisymmetric and transitive. */
  ghost predicate TotalOrder<X(!new)>(le: (X, X) -> bool)
  {
    && (forall x, y :: le(x, y) || le(y, x))
    && (forall x, y :: le(x, y) && le(y, x) ==> x == y)
    && (forall x, y, z :: le(x, y) && le(y, z) ==> le(x, z))
  }

  lemma {:induction false} StrLeTotal(a: string, b: string)
    ensures StrLe(a, b) || StrLe(b, a)
    decreases |a|
  {
    if |a| > 0 && |b| > 0 && a[0] == b[0] {
      StrLeTotal(a[1..], b[1..]);
    }
  }

  lemma {:induction false} StrLeAntisymmetric(a: string, b: string)
    requires StrLe(a, b) && StrLe(b, a)
    ensures a == b
    decreases |a|
  {
    if |a| > 0 {
      StrLeAntisymmetric(a[1..], b[1..]);
      assert a == [a[0]] + a[1..] && b == [b[0]] + b[1..];
    }
  }

  lemma {:induction false} StrLeTransitive(a: string, b: string, c: string)
    requires StrLe(a, b) && StrLe(b, c)
    ensures StrLe(a, c)
    decreases |a|
  {
    if |a| > 0 && a[0] == b[0] && b[0] == c[0] {
      StrLeTransitive(a[1..], b[1..], c[1..]);
    }
  }

  /** String order is total. */
  lemma StrLeTotalOrder()
    ensures TotalOrder(StrLe)
  {
    forall a, b ensures StrLe(a, b) || StrLe(b, a) {
      StrLeTotal(a, b);
    }
    forall a, b | StrLe(a, b) && StrLe(b, a) ensures a == b {
      StrLeAntisymmetric(a, b);
    }
    forall a, b, c | StrLe(a, b) && StrLe(b, c) ensures StrLe(a, c) {
      StrLeTransitive(a, b, c);
    }
  }

  /** Tuple order is total. */
  lemma KeyLeTotalOrder()
    ensures TotalOrder(KeyLe)
  {
    StrLeTotalOrder();
  }

  lemma {:induction false} KeysLeTotal(s: seq<Key>, t: seq<Key>)
    ensures KeysLe(s, t) || KeysLe(t, s)
    decreases |s|
  {
    KeyLeTotalOrder();
    if |s| > 0 && |t| > 0 && s[0] == t[0] {
      KeysLeTotal(s[1..], t[1..]);
    }
  }

  lemma {:induction false} KeysLeAntisymmetric(s: seq<Key>, t: seq<Key>)
    requires KeysLe(s, t) && KeysLe(t, s)
    ensures s == t
    decreases |s|
  {
    KeyLeTotalOrder();
    if |s| > 0 {
      KeysLeAntisymmetric(s[1..], t[1..]);
      assert s == [s[0]] + s[1..] && t == [t[0]] + t[1..];
    }
  }

  lemma {:induction false} KeysLeTransitive(s: seq<Key>, t: seq<Key>, u: seq<Key>)
    requires KeysLe(s, t) && KeysLe(t, u)
    ensures KeysLe(s, u)
    decreases |s|
  {
    KeyLeTotalOrder();
    if |s| > 0 && s[0] == t[0] && t[0] == u[0] {
      KeysLeTransitive(s[1..], t[1..], u[1..]);
    }
  }

  /** List order is total. */
  lemma KeysLeTotalOrder()
    ensures TotalOrder(KeysLe)
  {
    forall s, t ensures KeysLe(s, t) || KeysLe(t, s) {
      KeysLeTotal(s, t);
    }
    forall s, t | KeysLe(s, t) && KeysLe(t, s) ensures s == t {
      KeysLeAntisymmetric(s, t);
    }
    forall s, t, u | KeysLe(s, t) && KeysLe(t, u) ensures KeysLe(s, u) {
      KeysLeTransitive(s, t, u);
    }
  }

  /** A non-empty set has a least element under a total order. */
  lemma {:induction false} LeastExists<X(!new)>(s: set<X>, le: (X, X) -> bool)
    requires s != {} && TotalOrder(le)
    ensures exists m :: m in s && forall x :: x in s ==> le(m, x)
    decreases |s|
  {
    var m0 :| m0 in s;
    if s - {m0} == {} {
      forall x | x in s ensures le(m0, x) {
        assert x !in s - {m0};
      }
    } else {
      LeastExists(s - {m0}, le);
      var m1 :| m1 in s - {m0} && forall x :: x in s - {m0} ==> le(m1, x);
      if le(m0, m1) {
        forall x | x in s ensures le(m0, x) {
          if x != m0 {
            assert x in s - {m0};
            assert le(m1, x);
          } else {
            assert le(x, x) || le(x, x);  // totality at (x, x) is reflexivity
          }
        }
      } else {
        assert le(m1, m0);
        forall x | x in s ensures le(m1, x) {
          if x != m0 {
            assert x in s - {m0};
          }
        }
      }
    }
  }

  /** The distinct values of a multiset. */
  function Support<X>(m: multiset<X>): set<X>
  {
    set x | x in m
  }

  /** `sorted(m)`: the least value first, then the sorted rest; a value
      that occurs several times is listed that many times. */
  ghost function SortedBag<X(!new)>(m: multiset<X>, le: (X, X) -> bool): (r: seq<X>)
    requires TotalOrder(le)
    ensures multiset(r) == m
    ensures forall i, j :: 0 <= i < j < |r| ==> le(r[i], r[j])
    decreases |m|
  {
    if m == multiset{} then []
    else
      LeastInBag(m, le);
      var x :| x in m && forall y :: y in m ==> le(x, y);
      var rest := SortedBag(m - multiset{x}, le);
      LeastBeforeRest(m, le, x, rest);
      [x] + rest
  }

  /** A non-empty multiset has a least value. */
  lemma LeastInBag<X(!new)>(m: multiset<X>, le: (X, X) -> bool)
    requires m != multiset{} && TotalOrder(le)
    ensures exists x :: x in m && forall y :: y in m ==> le(x, y)
  {
    var x0 :| x0 in m;
    assert x0 in Support(m);
    LeastExists(Support(m), le);
    var x :| x in Support(m) && forall y :: y in Support(m) ==> le(x, y);
    forall y | y in m ensures le(x, y) {
      assert y in Support(m);
    }
  }

  /** The least value, put before a sorted listing of the others, lists
      the whole multiset in order. */
  lemma LeastBeforeRest<X>(m: multiset<X>, le: (X, X) -> bool, x: X, rest: seq<X>)
    requires x in m && forall y :: y in m ==> le(x, y)
    requires multiset(rest) == m - multiset{x}
    requires forall i, j :: 0 <= i < j < |rest| ==> le(rest[i], rest[j])
    ensures multiset([x] + rest) == m
    ensures forall i, j :: 0 <= i < j < |[x] + rest| ==> le(([x] + rest)[i], ([x] + rest)[j])
  {
    var r := [x] + rest;
    forall j | 0 <= j < |rest| ensures le(x, rest[j]) {
      assert rest[j] in multiset(rest);
    }
    forall i, j | 0 <= i < j < |r| ensures le(r[i], r[j]) {
      if i == 0 {
        assert r[j] == rest[j - 1];
      } else {
        assert r[i] == rest[i - 1] && r[j] == rest[j - 1];
      }
    }
  }

  /** A least value heads `sorted(m)`. */
  lemma SortedBagHead<X(!new)>(m: multiset<X>, le: (X, X) -> bool, x: X)
    requires TotalOrder(le) && x in m && forall y :: y in m ==> le(x, y)
    ensures SortedBag(m, le) == [x] + SortedBag(m - multiset{x}, le)
  {
    var r := SortedBag(m, le);
    assert r[0] in multiset(r);
    assert x in multiset(r);
    var i :| 0 <= i < |r| && r[i] == x;
    if i > 0 {
      assert le(r[0], r[i]);
    }
    assert le(x, r[0]);
    assert r[0] == x;
  }

  /** Every value of a list is at most every later one. */
  ghost predicate Ascending<X>(xs: seq<X>, le: (X, X) -> bool)
  {
    forall i, j :: 0 <= i < j < |xs| ==> le(xs[i], xs[j])
  }

  /** Totality at `(x, x)` is reflexivity. */
  lemma Reflexive<X(!new)>(le: (X, X) -> bool, x: X)
    requires TotalOrder(le)
    ensures le(x, x)
  {
  }

  /** The head of an ascending list is at most each of its values. */
  lemma AscendingHeadLeast<X>(xs: seq<X>, le: (X, X) -> bool)
    requires |xs| > 0 && Ascending(xs, le) && le(xs[0], xs[0])
    ensures forall y :: y in multiset(xs) ==> le(xs[0], y)
  {
    forall y | y in multiset(xs) ensures le(xs[0], y) {
      var i :| 0 <= i < |xs| && xs[i] == y;
      if i > 0 {
        assert le(xs[0], xs[i]);
      }
    }
  }

  lemma AscendingTail<X>(xs: seq<X>, le: (X, X) -> bool)
    requires |xs| > 0 && Ascending(xs, le)
    ensures Ascending(xs[1..], le)
    ensures multiset(xs) - multiset{xs[0]} == multiset(xs[1..])
  {
    var tail := xs[1..];
    forall i, j | 0 <= i < j < |tail| ensures le(tail[i], tail[j]) {
      assert tail[i] == xs[i + 1] && tail[j] == xs[j + 1];
    }
    assert xs == [xs[0]] + tail;
  }

  /** `sorted` of an ascending list's values, repeats included, is that list. */
  lemma {:induction false} SortedBagOfAscending<X(!new)>(xs: seq<X>, le: (X, X) -> bool)
    requires TotalOrder(le) && Ascending(xs, le)
    ensures SortedBag(multiset(xs), le) == xs
    decreases |xs|
  {
    if |xs| > 0 {
      Reflexive(le, xs[0]);
      AscendingHeadLeast(xs, le);
      AscendingTail(xs, le);
      calc {
        SortedBag(multiset(xs), le);
        { SortedBagHead(multiset(xs), le, xs[0]); }
        [xs[0]] + SortedBag(multiset(xs) - multiset{xs[0]}, le);
        [xs[0]] + SortedBag(multiset(xs[1..]), le);
        { SortedBagOfAscending(xs[1..], le); }
        [xs[0]] + xs[1..];
        xs;
      }
    }
  }

  /** The set of the elements of a list. */
  function Elements<X(==)>(xs: seq<X>): set<X>
  {
    set x | x in xs
  }

  /** `sorted` over `(label, negated)` tuples. */
  ghost function SortedKeys(m: multiset<Key>): (r: seq<Key>)
    ensures multiset(r) == m
  {
    KeyLeTotalOrder();
    SortedBag(m, KeyLe)
  }

  /** `sorted` over lists of tuples. */
  ghost function SortedKeyLists(m: multiset<seq<Key>>): (r: seq<seq<Key>>)
    ensures multiset(r) == m
  {
    KeysLeTotalOrder();
    SortedBag(m, KeysLe)
  }

  lemma SortedKeysOfAscending(xs: seq<Key>)
    requires Ascending(xs, KeyLe)
    ensures SortedKeys(multiset(xs)) == xs
  {
    KeyLeTotalOrder();
    SortedBagOfAscending(xs, KeyLe);
  }

  lemma SortedKeyListsOfAscending(xs: seq<seq<Key>>)
    requires Ascending(xs, KeysLe)
    ensures SortedKeyLists(multiset(xs)) == xs
  {
    KeysLeTotalOrder();
    SortedBagOfAscending(xs, KeysLe);
  }
}
