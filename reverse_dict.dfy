/** `ReverseDictManager` of `shrubbery.db.fields.reverse.reverse_dict`: a
    dictionary stored as rows `(owner, key, value)` of one table, each
    owner seeing the rows pointing at it. The table is a map from
    `(owner, key)` to value; the manager's methods take the owner they are
    bound to. The database's iteration order is an arbitrary listing of
    an owner's keys. */
module ReverseDict {
  import opened Wrappers

  datatype Error = KeyError | TypeError | IndexError

  // ---------------------------------------------------------------------
  // The dictionary each owner sees
  // ---------------------------------------------------------------------

  /** The keys of `owner`'s rows. */
  function KeysOf<O(==), K, V>(rows: map<(O, K), V>, owner: O): set<K>
  {
    set p | p in rows.Keys && p.0 == owner :: p.1
  }

  /** `owner`'s dictionary: its rows, by key. */
  function Dict<O(==), K(==,!new), V>(rows: map<(O, K), V>, owner: O): (d: map<K, V>)
    ensures forall k :: k in d <==> (owner, k) in rows
    ensures forall k :: k in d ==> d[k] == rows[(owner, k)]
  {
    assert forall k :: k in KeysOf(rows, owner) <==> (owner, k) in rows by {
      forall k | k in KeysOf(rows, owner) ensures (owner, k) in rows {
        var p :| p in rows.Keys && p.0 == owner && p.1 == k;
        assert p == (owner, k);
      }
    }
    map k | k in KeysOf(rows, owner) :: rows[(owner, k)]
  }

  /** The table without `owner`'s rows. */
  function Without<O(==), K(==), V>(rows: map<(O, K), V>, owner: O): map<(O, K), V>
  {
    map p | p in rows && p.0 != owner :: rows[p]
  }

  /** Writing one row changes that owner's value for that key and no other
      owner's dictionary. */
  lemma DictUpdate<O, K(!new), V>(rows: map<(O, K), V>, owner: O, key: K, value: V, o: O)
    ensures Dict(rows[(owner, key) := value], o)
            == if o == owner then Dict(rows, o)[key := value] else Dict(rows, o)
  {
  }

  /** Deleting one row removes that key from that owner's dictionary only. */
  lemma DictRemove<O, K(!new), V>(rows: map<(O, K), V>, owner: O, key: K, o: O)
    ensures Dict(rows - {(owner, key)}, o)
            == if o == owner then Dict(rows, o) - {key} else Dict(rows, o)
  {
  }

  /** Dropping an owner's rows empties its dictionary and no other. */
  lemma DictWithout<O, K(!new), V>(rows: map<(O, K), V>, owner: O, o: O)
    ensures Dict(Without(rows, owner), o) == if o == owner then map[] else Dict(rows, o)
  {
    if o == owner {
      assert forall k :: k !in Dict(Without(rows, owner), o);
    }
  }

  /** The owners' dictionaries determine the table. */
  lemma DictsDetermineRows<O, K(!new), V>(a: map<(O, K), V>, b: map<(O, K), V>)
    requires forall o :: Dict(a, o) == Dict(b, o)
    ensures a == b
  {
    forall p | p in a ensures p in b && a[p] == b[p] {
      assert p.1 in Dict(a, p.0);
    }
    forall p | p in b ensures p in a {
      assert p.1 in Dict(b, p.0);
    }
  }

  // ---------------------------------------------------------------------
  // Listings: what iterating the rows produces
  // ---------------------------------------------------------------------

  /** `ks` lists the keys of `d`, each once, in some order. */
  ghost predicate Lists<K(!new), V>(ks: seq<K>, d: map<K, V>)
  {
    && (forall i, j :: 0 <= i < j < |ks| ==> ks[i] != ks[j])
    && (forall k :: k in d <==> k in ks)
  }

  function ItemsOf<K, V>(ks: seq<K>, d: map<K, V>): (r: seq<(K, V)>)
    requires forall i :: 0 <= i < |ks| ==> ks[i] in d
    ensures |r| == |ks|
    ensures forall i :: 0 <= i < |r| ==> r[i] == (ks[i], d[ks[i]])
  {
    if |ks| == 0 then [] else [(ks[0], d[ks[0]])] + ItemsOf(ks[1..], d)
  }

  function ValuesOf<K, V>(ks: seq<K>, d: map<K, V>): (r: seq<V>)
    requires forall i :: 0 <= i < |ks| ==> ks[i] in d
    ensures |r| == |ks|
    ensures forall i :: 0 <= i < |r| ==> r[i] == d[ks[i]]
  {
    if |ks| == 0 then [] else [d[ks[0]]] + ValuesOf(ks[1..], d)
  }

  /** `dict(pairs)`: later pairs override earlier ones. */
  function ToDict<K, V>(pairs: seq<(K, V)>): map<K, V>
  {
    if |pairs| == 0 then map[]
    else ToDict(pairs[..|pairs| - 1])[pairs[|pairs| - 1].0 := pairs[|pairs| - 1].1]
  }

  lemma {:induction false} ToDictMeaning<K, V>(pairs: seq<(K, V)>)
    requires forall i, j :: 0 <= i < j < |pairs| ==> pairs[i].0 != pairs[j].0
    ensures forall k :: k in ToDict(pairs) <==> exists i :: 0 <= i < |pairs| && pairs[i].0 == k
    ensures forall i :: 0 <= i < |pairs| ==> ToDict(pairs)[pairs[i].0] == pairs[i].1
  {
    if |pairs| > 0 {
      var init := pairs[..|pairs| - 1];
      ToDictMeaning(init);
      forall k ensures k in ToDict(pairs) <==> exists i :: 0 <= i < |pairs| && pairs[i].0 == k {
        if exists i :: 0 <= i < |init| && init[i].0 == k {
          var i :| 0 <= i < |init| && init[i].0 == k;
          assert pairs[i].0 == k;
        }
      }
      forall i | 0 <= i < |pairs| ensures ToDict(pairs)[pairs[i].0] == pairs[i].1 {
        if i < |pairs| - 1 {
          assert init[i] == pairs[i];
        }
      }
    }
  }

  /** The facts about `dict(items)` that `ToDictMeaning` gives, for the
      items of `d` listed by `ks`. */
  ghost predicate Rebuilt<K(!new), V>(ks: seq<K>, d: map<K, V>, t: map<K, V>)
  {
    && (forall i :: 0 <= i < |ks| ==> ks[i] in d && ks[i] in t && t[ks[i]] == d[ks[i]])
    && (forall k :: k in t ==> exists i :: 0 <= i < |ks| && ks[i] == k)
  }

  lemma RebuiltFrom<K(!new), V>(ks: seq<K>, d: map<K, V>)
    requires forall i, j :: 0 <= i < j < |ks| ==> ks[i] != ks[j]
    requires forall i :: 0 <= i < |ks| ==> ks[i] in d
    ensures Rebuilt(ks, d, ToDict(ItemsOf(ks, d)))
  {
    var items := ItemsOf(ks, d);
    forall i, j | 0 <= i < j < |items| ensures items[i].0 != items[j].0 {
      assert items[i].0 == ks[i] && items[j].0 == ks[j];
    }
    ToDictMeaning(items);
    var t := ToDict(items);
    forall i | 0 <= i < |ks| ensures ks[i] in t && t[ks[i]] == d[ks[i]] {
      assert items[i] == (ks[i], d[ks[i]]);
    }
    forall k | k in t ensures exists i :: 0 <= i < |ks| && ks[i] == k {
      var i :| 0 <= i < |items| && items[i].0 == k;
      assert ks[i] == k;
    }
  }

  lemma RebuiltIsDict<K(!new), V>(ks: seq<K>, d: map<K, V>, t: map<K, V>)
    requires Lists(ks, d) && Rebuilt(ks, d, t)
    ensures t == d
  {
    forall k | k in d ensures k in t && t[k] == d[k] {
      var i :| 0 <= i < |ks| && ks[i] == k;
    }
  }

  /** `dict(manager.items()) == manager`, the comparison the tests use. */
  lemma ItemsRebuildDict<K(!new), V>(ks: seq<K>, d: map<K, V>)
    requires Lists(ks, d)
    ensures ToDict(ItemsOf(ks, d)) == d
  {
    RebuiltFrom(ks, d);
    RebuiltIsDict(ks, d, ToDict(ItemsOf(ks, d)));
  }

  /** The loop of `owner.attribs = value` with the keys `left` still to
      set: the other owners untouched, `owner`'s rows those of `value`
      already set. */
  ghost predicate Assigning<O(!new), K(!new), V>(rows: map<(O, K), V>, before: map<(O, K), V>, owner: O,
                                                  value: map<K, V>, left: set<K>)
  {
    && left <= value.Keys
    && (forall o :: o != owner ==> Dict(rows, o) == Dict(before, o))
    && (forall k :: k in Dict(rows, owner) <==> k in value && k !in left)
    && (forall k :: k in Dict(rows, owner) ==> Dict(rows, owner)[k] == value[k])
  }

  lemma AssignStart<O(!new), K(!new), V>(before: map<(O, K), V>, owner: O, value: map<K, V>)
    ensures Assigning(Without(before, owner), before, owner, value, value.Keys)
  {
    forall o ensures Dict(Without(before, owner), o) == if o == owner then map[] else Dict(before, o) {
      DictWithout(before, owner, o);
    }
  }

  lemma AssignStep<O(!new), K(!new), V>(rows: map<(O, K), V>, before: map<(O, K), V>, owner: O,
                                 value: map<K, V>, left: set<K>, k: K)
    requires Assigning(rows, before, owner, value, left) && k in left
    ensures Assigning(rows[(owner, k) := value[k]], before, owner, value, left - {k})
  {
    forall o ensures Dict(rows[(owner, k) := value[k]], o)
                     == if o == owner then Dict(rows, o)[k := value[k]] else Dict(rows, o) {
      DictUpdate(rows, owner, k, value[k], o);
    }
  }

  lemma AssignDone<O(!new), K(!new), V>(rows: map<(O, K), V>, before: map<(O, K), V>, owner: O, value: map<K, V>)
    requires Assigning(rows, before, owner, value, {})
    ensures Dict(rows, owner) == value
  {
  }

  // ---------------------------------------------------------------------
  // The manager
  // ---------------------------------------------------------------------

  class DictTable<O(==,!new), K(==,!new), V> {
    /** The rows of the intermediate table. */
    var rows: map<(O, K), V>

    constructor()
      ensures rows == map[]
    {
      rows := map[];
    }

    /** What `dict(owner.attribs)` would be. */
    function Contents(owner: O): map<K, V>
      reads this
    {
      Dict(rows, owner)
    }

    /** `d[key]`: the value of `key`, `KeyError` when there is no row. */
    method GetItem(owner: O, key: K) returns (r: Result<V, Error>)
      ensures key in Contents(owner) ==> r == Success(Contents(owner)[key])
      ensures key !in Contents(owner) ==> r == Failure(KeyError)
    {
      if (owner, key) in rows {
        r := Success(rows[(owner, key)]);
      } else {
        r := Failure(KeyError);
      }
    }

    /** `d.get(key[, default])` for a key that is not a lookup: the value,
        else the default, else `None`. */
    method Get(owner: O, key: K, default: Option<V>) returns (r: Option<V>)
      ensures key in Contents(owner) ==> r == Some(Contents(owner)[key])
      ensures key !in Contents(owner) ==> r == default
    {
      var found := GetItem(owner, key);
      if found.Success? {
        r := Some(found.value);
      } else {
        r := default;
      }
    }

    /** `d[key] = value`: the existing row is updated, or one is created. */
    method SetItem(owner: O, key: K, value: V)
      modifies this
      ensures rows == old(rows)[(owner, key) := value]
    {
      if (owner, key) in rows {
        rows := rows[(owner, key) := value];
      } else {
        rows := rows[(owner, key) := value];
      }
    }

    /** `del d[key]`: removes the row, `KeyError` when there is none. */
    method DelItem(owner: O, key: K) returns (r: Result<(), Error>)
      modifies this
      ensures (owner, key) in old(rows) ==> r == Success(()) && rows == old(rows) - {(owner, key)}
      ensures (owner, key) !in old(rows) ==> r == Failure(KeyError) && rows == old(rows)
    {
      if (owner, key) in rows {
        rows := rows - {(owner, key)};
        r := Success(());
      } else {
        r := Failure(KeyError);
      }
    }

    /** `d.clear()`: deletes the owner's rows. */
    method Clear(owner: O)
      modifies this
      ensures rows == Without(old(rows), owner)
    {
      rows := Without(rows, owner);
    }

    /** `d.setdefault(key, default)`: the existing value, or a new row
        holding the default. */
    method SetDefault(owner: O, key: K, default: V) returns (r: V)
      modifies this
      ensures (owner, key) in old(rows) ==> r == old(rows)[(owner, key)] && rows == old(rows)
      ensures (owner, key) !in old(rows) ==> r == default && rows == old(rows)[(owner, key) := default]
    {
      var found := GetItem(owner, key);
      if found.Success? {
        r := found.value;
      } else {
        rows := rows[(owner, key) := default];
        r := default;
      }
    }

    /** `d.pop(key, *extras)`: removes and returns the value; for a missing
        key, the one default if given, `TypeError` for more than one and
        `KeyError` for none. */
    method Pop(owner: O, key: K, extras: seq<V>) returns (r: Result<V, Error>)
      modifies this
      ensures (owner, key) in old(rows) ==>
                r == Success(old(rows)[(owner, key)]) && rows == old(rows) - {(owner, key)}
      ensures (owner, key) !in old(rows) ==> rows == old(rows)
      ensures (owner, key) !in old(rows) && |extras| == 1 ==> r == Success(extras[0])
      ensures (owner, key) !in old(rows) && |extras| > 1 ==> r == Failure(TypeError)
      ensures (owner, key) !in old(rows) && |extras| == 0 ==> r == Failure(KeyError)
    {
      if (owner, key) in rows {
        var value := rows[(owner, key)];
        rows := rows - {(owner, key)};
        return Success(value);
      }
      if |extras| > 0 {
        if |extras| == 1 {
          return Success(extras[0]);
        }
        return Failure(TypeError);
      }
      return Failure(KeyError);
    }

    /** `d.popitem()`: removes the first row and returns its pair; an
        owner without rows raises `IndexError` from `self.all()[0]`. */
    method PopItem(owner: O) returns (r: Result<(K, V), Error>)
      modifies this
      ensures old(Contents(owner)) == map[] ==> r == Failure(IndexError) && rows == old(rows)
      ensures old(Contents(owner)) != map[] ==>
                && r.Success? && r.value.0 in old(Contents(owner))
                && r.value.1 == old(Contents(owner))[r.value.0]
                && rows == old(rows) - {(owner, r.value.0)}
    {
      var ks := Listing(owner);
      if |ks| == 0 {
        assert Contents(owner) == map[];
        return Failure(IndexError);
      }
      var k := ks[0];
      var value := rows[(owner, k)];
      rows := rows - {(owner, k)};
      r := Success((k, value));
    }

    /** `d.copy()`: `dict(d.iteritems())`, which is the owner's dictionary. */
    method Copy(owner: O) returns (d: map<K, V>)
      ensures d == Contents(owner)
    {
      var ks := Listing(owner);
      d := ToDict(ItemsOf(ks, Contents(owner)));
      ItemsRebuildDict(ks, Contents(owner));
    }

    /** The owner's keys in the order the rows come back. */
    method Listing(owner: O) returns (ks: seq<K>)
      ensures Lists(ks, Contents(owner))
    {
      var d := Contents(owner);
      var left := d.Keys;
      ks := [];
      while left != {}
        invariant forall i, j :: 0 <= i < j < |ks| ==> ks[i] != ks[j]
        invariant forall k :: k in d <==> k in ks || k in left
        invariant forall k :: k in left ==> k !in ks
        decreases left
      {
        var k :| k in left;
        ks := ks + [k];
        left := left - {k};
      }
    }

    /** `d.items()`. */
    method Items(owner: O) returns (r: seq<(K, V)>)
      ensures exists ks :: Lists(ks, Contents(owner)) && r == ItemsOf(ks, Contents(owner))
    {
      var ks := Listing(owner);
      r := ItemsOf(ks, Contents(owner));
    }

    /** `d.keys()`. */
    method Keys(owner: O) returns (r: seq<K>)
      ensures Lists(r, Contents(owner))
    {
      r := Listing(owner);
    }

    /** `d.values()`. */
    method Values(owner: O) returns (r: seq<V>)
      ensures exists ks :: Lists(ks, Contents(owner)) && r == ValuesOf(ks, Contents(owner))
    {
      var ks := Listing(owner);
      r := ValuesOf(ks, Contents(owner));
    }

    /** `owner.attribs = value`: clears the owner's rows, then sets each key
        of `value`; every other owner keeps its rows. */
    method Assign(owner: O, value: map<K, V>)
      modifies this
      ensures Contents(owner) == value
      ensures forall o :: o != owner ==> Dict(rows, o) == Dict(old(rows), o)
    {
      ghost var before := rows;
      Clear(owner);
      AssignStart(before, owner, value);
      var left := value.Keys;
      while left != {}
        invariant Assigning(rows, before, owner, value, left)
        decreases left
      {
        var k :| k in left;
        ghost var prev := rows;
        SetItem(owner, k, value[k]);
        AssignStep(prev, before, owner, value, left, k);
        left := left - {k};
      }
      AssignDone(rows, before, owner, value);
    }
  }
}
