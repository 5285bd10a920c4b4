/** `UrlMap` of `shrubbery.urlmap`: views registered per class (or per
    object) and use case, looked up along an object's method resolution
    order, with default keyword mappers and the keyword merge of
    `reverse`. The method resolution order is given as a sequence, a
    mapper's output as a function, and Django's `reverse` becomes the
    `Reversed` value it would be called with. */
module UrlMap {
  import opened Wrappers
  import Utils

  /** Python's `None` as a use case. */
  datatype NoneType = PyNone

  /** A use case: `None`, a string, or (for `register`) an iterable of
      them. */
  type UseCase = Utils.Value<NoneType>

  const NoUseCase: UseCase := Utils.Atom(PyNone)

  /** The default `use_case=(None,)`. */
  const DefaultUseCases: UseCase := Utils.Iterable([Utils.Atom(PyNone)])

  /** `bool(use_case)`. */
  predicate Truthy(uc: UseCase)
  {
    match uc
    case Str(s) => s != ""
    case Iterable(items) => items != []
    case Atom(_) => false
  }

  /** The triple `(view, defaults, mapper)` a registration stores; the
      defaults are the `(name, value)` pairs the merge iterates. */
  datatype Entry<V, M, K, X> = Entry(view: V, defaults: seq<(K, X)>, mapper: Option<M>)

  datatype Error = KeyError | ValueError | NoUrlMapping

  /** What `reverse` returns: the call `django_reverse(view, kwargs=...)`,
      or the object's own `get_absolute_url()`. */
  datatype Url<V, K, X, R> = Reversed(view: V, kwargs: map<K, X>) | Absolute(url: R)

  // ---------------------------------------------------------------------
  // Lookups
  // ---------------------------------------------------------------------

  /** The registry entry of the first class of `mro` registered for `uc`. */
  function ClassView<S(==), E>(classes: map<(S, UseCase), E>, mro: seq<S>, uc: UseCase): Result<E, Error>
  {
    if |mro| == 0 then Failure(KeyError)
    else if (mro[0], uc) in classes then Success(classes[(mro[0], uc)])
    else ClassView(classes, mro[1..], uc)
  }

  /** `get_view(obj, use_case)`: the object's own entry first, then the
      classes of its method resolution order. */
  function ViewFor<S(==), E>(instances: map<(S, UseCase), E>, classes: map<(S, UseCase), E>,
                         obj: S, mro: seq<S>, uc: UseCase): Result<E, Error>
  {
    if (obj, uc) in instances then Success(instances[(obj, uc)]) else ClassView(classes, mro, uc)
  }

  /** The class lookup finds something exactly when some class of `mro` is
      registered, and then it is the entry of the first such class. */
  lemma {:induction false} ClassViewFirst<S, E>(classes: map<(S, UseCase), E>, mro: seq<S>, uc: UseCase)
    ensures ClassView(classes, mro, uc).Success? <==> exists i :: 0 <= i < |mro| && (mro[i], uc) in classes
    ensures ClassView(classes, mro, uc).Failure? ==> ClassView(classes, mro, uc) == Failure(KeyError)
    ensures ClassView(classes, mro, uc).Success? ==>
              exists i :: 0 <= i < |mro| && (mro[i], uc) in classes
                          && ClassView(classes, mro, uc).value == classes[(mro[i], uc)]
                          && forall j :: 0 <= j < i ==> (mro[j], uc) !in classes
    decreases |mro|
  {
    if |mro| > 0 && (mro[0], uc) !in classes {
      ClassViewFirst(classes, mro[1..], uc);
      var r := ClassView(classes, mro, uc);
      if r.Success? {
        var i :| 0 <= i < |mro[1..]| && (mro[1..][i], uc) in classes
                 && r.value == classes[(mro[1..][i], uc)]
                 && forall j :: 0 <= j < i ==> (mro[1..][j], uc) !in classes;
        assert mro[1..][i] == mro[i + 1];
        forall j | 0 <= j < i + 1 ensures (mro[j], uc) !in classes {
          if j > 0 {
            assert mro[j] == mro[1..][j - 1];
          }
        }
      } else {
        forall i | 0 <= i < |mro| ensures (mro[i], uc) !in classes {
          if i > 0 {
            assert mro[i] == mro[1..][i - 1];
          }
        }
      }
    }
  }

  /** Whether class `s` has a mapper for `uc` or for no use case. */
  predicate HasMapper<S(==), M>(mappers: map<(S, UseCase), M>, s: S, uc: UseCase)
  {
    (s, uc) in mappers || (s, NoUseCase) in mappers
  }

  /** The mapper of class `s`: the one for `uc`, else the one for no use
      case. */
  function MapperOf<S(==), M>(mappers: map<(S, UseCase), M>, s: S, uc: UseCase): M
    requires HasMapper(mappers, s, uc)
  {
    if (s, uc) in mappers then mappers[(s, uc)] else mappers[(s, NoUseCase)]
  }

  /** `get_default_mapper(obj, use_case)`. */
  function MapperFor<S(==), M>(mappers: map<(S, UseCase), M>, mro: seq<S>, uc: UseCase): Option<M>
  {
    if |mro| == 0 then None
    else if HasMapper(mappers, mro[0], uc) then Some(MapperOf(mappers, mro[0], uc))
    else MapperFor(mappers, mro[1..], uc)
  }

  /** Each class is tried for `uc` and then for no use case before the
      next class: the mapper found is that of the first class having
      either, and there is none only when no class has one. */
  lemma {:induction false} MapperForFirst<S, M>(mappers: map<(S, UseCase), M>, mro: seq<S>, uc: UseCase)
    ensures MapperFor(mappers, mro, uc).Some? <==> exists i :: 0 <= i < |mro| && HasMapper(mappers, mro[i], uc)
    ensures MapperFor(mappers, mro, uc).Some? ==>
              exists i :: 0 <= i < |mro| && HasMapper(mappers, mro[i], uc)
                          && MapperFor(mappers, mro, uc).value == MapperOf(mappers, mro[i], uc)
                          && forall j :: 0 <= j < i ==> !HasMapper(mappers, mro[j], uc)
    decreases |mro|
  {
    if |mro| > 0 && !HasMapper(mappers, mro[0], uc) {
      MapperForFirst(mappers, mro[1..], uc);
      var r := MapperFor(mappers, mro, uc);
      if r.Some? {
        var i :| 0 <= i < |mro[1..]| && HasMapper(mappers, mro[1..][i], uc)
                 && r.value == MapperOf(mappers, mro[1..][i], uc)
                 && forall j :: 0 <= j < i ==> !HasMapper(mappers, mro[1..][j], uc);
        assert mro[1..][i] == mro[i + 1];
        forall j | 0 <= j < i + 1 ensures !HasMapper(mappers, mro[j], uc) {
          if j > 0 {
            assert mro[j] == mro[1..][j - 1];
          }
        }
      } else {
        forall i | 0 <= i < |mro| ensures !HasMapper(mappers, mro[i], uc) {
          if i > 0 {
            assert mro[i] == mro[1..][i - 1];
          }
        }
      }
    }
  }

  // ---------------------------------------------------------------------
  // The keyword merge of reverse
  // ---------------------------------------------------------------------

  /** `obj_kwargs.setdefault(name, value)` for each default pair in
      order. */
  function SetDefaults<K, X>(base: map<K, X>, defaults: seq<(K, X)>): map<K, X>
    decreases |defaults|
  {
    if |defaults| == 0 then base
    else
      var name := defaults[0].0;
      SetDefaults(if name in base then base else base[name := defaults[0].1], defaults[1..])
  }

  /** A default fills only a missing name, and the first default for a
      name wins. */
  lemma {:induction false} SetDefaultsMeaning<K, X>(base: map<K, X>, defaults: seq<(K, X)>)
    ensures forall k :: k in SetDefaults(base, defaults) <==>
              k in base || exists i :: 0 <= i < |defaults| && defaults[i].0 == k
    ensures forall k :: k in base ==> SetDefaults(base, defaults)[k] == base[k]
    ensures forall i :: (0 <= i < |defaults| && defaults[i].0 !in base
                         && forall j :: 0 <= j < i ==> defaults[j].0 != defaults[i].0) ==>
              SetDefaults(base, defaults)[defaults[i].0] == defaults[i].1
    decreases |defaults|
  {
    if |defaults| > 0 {
      var name := defaults[0].0;
      var next := if name in base then base else base[name := defaults[0].1];
      var tail := defaults[1..];
      SetDefaultsMeaning(next, tail);
      var r := SetDefaults(base, defaults);
      forall k ensures k in r <==> k in base || exists i :: 0 <= i < |defaults| && defaults[i].0 == k {
        if exists i :: 0 <= i < |tail| && tail[i].0 == k {
          var i :| 0 <= i < |tail| && tail[i].0 == k;
          assert defaults[i + 1].0 == k;
        }
        if exists i :: 0 <= i < |defaults| && defaults[i].0 == k {
          var i :| 0 <= i < |defaults| && defaults[i].0 == k;
          if i > 0 {
            assert tail[i - 1].0 == k;
          }
        }
      }
      forall i | 0 <= i < |defaults| && defaults[i].0 !in base
                 && (forall j :: 0 <= j < i ==> defaults[j].0 != defaults[i].0)
        ensures r[defaults[i].0] == defaults[i].1
      {
        if i > 0 {
          assert tail[i - 1] == defaults[i];
          assert defaults[i].0 !in next;
          forall j | 0 <= j < i - 1 ensures tail[j].0 != tail[i - 1].0 {
            assert tail[j] == defaults[j + 1];
          }
        }
      }
    }
  }

  lemma SetDefaultsDomain<K, X>(base: map<K, X>, defaults: seq<(K, X)>, k: K)
    requires k in SetDefaults(base, defaults)
    ensures k in base || exists i :: 0 <= i < |defaults| && defaults[i].0 == k
  {
    SetDefaultsMeaning(base, defaults);
  }

  /** `for name, value in defaults: obj_kwargs.setdefault(name, value)`. */
  method ApplyDefaults<K, X>(base: map<K, X>, defaults: seq<(K, X)>) returns (r: map<K, X>)
    ensures r == SetDefaults(base, defaults)
  {
    r := base;
    var i := 0;
    while i < |defaults|
      invariant 0 <= i <= |defaults|
      invariant SetDefaults(r, defaults[i..]) == SetDefaults(base, defaults)
    {
      assert defaults[i..][0] == defaults[i] && defaults[i..][1..] == defaults[i + 1..];
      var name := defaults[i].0;
      if name !in r {
        r := r[name := defaults[i].1];
      }
      i := i + 1;
    }
    assert defaults[i..] == [];
  }

  /** The explicit keywords of a `reverse` call; `None` gives none. */
  function Explicit<K, X>(kwargs: Option<map<K, X>>): map<K, X>
  {
    if kwargs.Some? then kwargs.value else map[]
  }

  /** The keywords `reverse` passes on: the mapper's output, the defaults
      where it has no value, and the explicit keywords over both. */
  function Merge<K, X>(mapped: map<K, X>, defaults: seq<(K, X)>, kwargs: Option<map<K, X>>): map<K, X>
  {
    SetDefaults(mapped, defaults) + Explicit(kwargs)
  }

  /** Defaults < mapper < keywords: an explicit keyword always wins, a
      mapped name keeps the mapper's value unless overridden, and a
      default only fills a name neither gives. */
  lemma MergePrecedence<K, X>(mapped: map<K, X>, defaults: seq<(K, X)>, kwargs: Option<map<K, X>>)
    ensures forall k :: k in Explicit(kwargs) ==>
              k in Merge(mapped, defaults, kwargs) && Merge(mapped, defaults, kwargs)[k] == Explicit(kwargs)[k]
    ensures forall k :: k in mapped && k !in Explicit(kwargs) ==>
              k in Merge(mapped, defaults, kwargs) && Merge(mapped, defaults, kwargs)[k] == mapped[k]
    ensures forall i :: (0 <= i < |defaults| && defaults[i].0 !in mapped && defaults[i].0 !in Explicit(kwargs)
                         && forall j :: 0 <= j < i ==> defaults[j].0 != defaults[i].0) ==>
              defaults[i].0 in Merge(mapped, defaults, kwargs)
              && Merge(mapped, defaults, kwargs)[defaults[i].0] == defaults[i].1
    ensures forall k :: k in Merge(mapped, defaults, kwargs) ==>
              k in Explicit(kwargs) || k in mapped || exists i :: 0 <= i < |defaults| && defaults[i].0 == k
  {
    SetDefaultsMeaning(mapped, defaults);
    var filled := SetDefaults(mapped, defaults);
    forall i | 0 <= i < |defaults| ensures defaults[i].0 in filled {
    }
    forall k | k in Merge(mapped, defaults, kwargs)
      ensures k in Explicit(kwargs) || k in mapped || exists i :: 0 <= i < |defaults| && defaults[i].0 == k
    {
      if k !in Explicit(kwargs) {
        SetDefaultsDomain(mapped, defaults, k);
      }
    }
  }

  // ---------------------------------------------------------------------
  // Registrations
  // ---------------------------------------------------------------------

  /** The keys `(subject, uc)` for each use case `uc` of `items`. */
  function KeysFor<S(==)>(subject: S, items: seq<UseCase>): set<(S, UseCase)>
  {
    set uc | uc in items :: (subject, uc)
  }

  /** The same value under each key `(subject, uc)`. */
  function EntriesFor<S(==), E>(subject: S, items: seq<UseCase>, e: E): map<(S, UseCase), E>
  {
    map key | key in KeysFor(subject, items) :: e
  }

  lemma EntriesForStep<S, E>(subject: S, items: seq<UseCase>, i: nat, e: E)
    requires i < |items|
    ensures EntriesFor(subject, items[..i + 1], e) == EntriesFor(subject, items[..i], e)[(subject, items[i]) := e]
  {
    assert items[..i + 1] == items[..i] + [items[i]];
    assert KeysFor(subject, items[..i + 1]) == KeysFor(subject, items[..i]) + {(subject, items[i])};
  }

  lemma UpdateUnion<A, B>(base: map<A, B>, added: map<A, B>, k: A, v: B)
    ensures (base + added)[k := v] == base + added[k := v]
  {
  }

  class UrlMap<S(==), V, M, K(==), X> {
    var registry: map<(S, UseCase), Entry<V, M, K, X>>
    var defaultMappers: map<(S, UseCase), M>
    var instanceRegistry: map<(S, UseCase), Entry<V, M, K, X>>

    constructor()
      ensures registry == map[] && defaultMappers == map[] && instanceRegistry == map[]
    {
      registry := map[];
      defaultMappers := map[];
      instanceRegistry := map[];
    }

    /** `register(subject, view, defaults, mapper, use_case, instances)`:
        the entry goes under `(subject, uc)` for every use case `uc` of
        `force_iter(use_case)`, into `registry` when `instances` holds and
        into `instance_registry` otherwise; missing defaults become
        empty. */
    method Register(subject: S, view: V, defaults: Option<seq<(K, X)>>, mapper: Option<M>,
                    useCase: UseCase, instances: bool)
      modifies this
      ensures var e := Entry(view, if defaults.Some? then defaults.value else [], mapper);
              var added := EntriesFor(subject, Utils.ForceIter(useCase), e);
              && (instances ==> registry == old(registry) + added && instanceRegistry == old(instanceRegistry))
              && (!instances ==> instanceRegistry == old(instanceRegistry) + added && registry == old(registry))
      ensures defaultMappers == old(defaultMappers)
    {
      var e := Entry(view, if defaults.Some? then defaults.value else [], mapper);
      var items := Utils.ForceIter(useCase);
      var reg := if instances then registry else instanceRegistry;
      ghost var base := reg;
      var i := 0;
      while i < |items|
        invariant 0 <= i <= |items|
        invariant reg == base + EntriesFor(subject, items[..i], e)
        invariant registry == old(registry) && instanceRegistry == old(instanceRegistry)
        invariant defaultMappers == old(defaultMappers)
      {
        EntriesForStep(subject, items, i, e);
        UpdateUnion(base, EntriesFor(subject, items[..i], e), (subject, items[i]), e);
        reg := reg[(subject, items[i]) := e];
        i := i + 1;
      }
      assert items[..i] == items;
      if instances {
        registry := reg;
      } else {
        instanceRegistry := reg;
      }
      assert items[..i] == items;
    }

    /** `include(urlmap)`: all three maps are merged in, the included
        entries overriding; anything but a `UrlMap` is a `ValueError`. */
    method Include(other: Option<UrlMap<S, V, M, K, X>>) returns (r: Result<(), Error>)
      modifies this
      ensures other.None? ==> r == Failure(ValueError)
                              && registry == old(registry) && defaultMappers == old(defaultMappers)
                              && instanceRegistry == old(instanceRegistry)
      ensures other.Some? ==> r == Success(())
                              && registry == old(registry) + old(other.value.registry)
                              && instanceRegistry == old(instanceRegistry) + old(other.value.instanceRegistry)
                              && defaultMappers == old(defaultMappers) + old(other.value.defaultMappers)
    {
      if other.None? {
        return Failure(ValueError);
      }
      var o := other.value;
      var reg, inst, dm := o.registry, o.instanceRegistry, o.defaultMappers;
      registry := registry + reg;
      instanceRegistry := instanceRegistry + inst;
      defaultMappers := defaultMappers + dm;
      r := Success(());
    }

    /** `get_view(obj, use_case)` for an object whose class has method
        resolution order `mro`. */
    method GetView(obj: S, mro: seq<S>, uc: UseCase) returns (r: Result<Entry<V, M, K, X>, Error>)
      ensures r == ViewFor(instanceRegistry, registry, obj, mro, uc)
    {
      if (obj, uc) in instanceRegistry {
        return Success(instanceRegistry[(obj, uc)]);
      }
      var i := 0;
      while i < |mro|
        invariant 0 <= i <= |mro|
        invariant ClassView(registry, mro[i..], uc) == ClassView(registry, mro, uc)
      {
        assert mro[i..][0] == mro[i] && mro[i..][1..] == mro[i + 1..];
        if (mro[i], uc) in registry {
          return Success(registry[(mro[i], uc)]);
        }
        i := i + 1;
      }
      assert mro[i..] == [];
      r := Failure(KeyError);
    }

    /** `get_default_mapper(obj, use_case)`. */
    method GetDefaultMapper(mro: seq<S>, uc: UseCase) returns (r: Option<M>)
      ensures r == MapperFor(defaultMappers, mro, uc)
    {
      var i := 0;
      while i < |mro|
        invariant 0 <= i <= |mro|
        invariant MapperFor(defaultMappers, mro[i..], uc) == MapperFor(defaultMappers, mro, uc)
      {
        assert mro[i..][0] == mro[i] && mro[i..][1..] == mro[i + 1..];
        if (mro[i], uc) in defaultMappers {
          return Some(defaultMappers[(mro[i], uc)]);
        }
        if (mro[i], NoUseCase) in defaultMappers {
          return Some(defaultMappers[(mro[i], NoUseCase)]);
        }
        i := i + 1;
      }
      assert mro[i..] == [];
      r := None;
    }

    /** `set_default_mapper(obj_type, mapper, use_case)`. */
    method SetDefaultMapper(objType: S, mapper: M, useCase: UseCase)
      modifies this
      ensures defaultMappers == old(defaultMappers) + EntriesFor(objType, Utils.ForceIter(useCase), mapper)
      ensures registry == old(registry) && instanceRegistry == old(instanceRegistry)
    {
      var items := Utils.ForceIter(useCase);
      ghost var base := defaultMappers;
      var i := 0;
      while i < |items|
        invariant 0 <= i <= |items|
        invariant registry == old(registry) && instanceRegistry == old(instanceRegistry)
        invariant defaultMappers == base + EntriesFor(objType, items[..i], mapper)
      {
        EntriesForStep(objType, items, i, mapper);
        UpdateUnion(base, EntriesFor(objType, items[..i], mapper), (objType, items[i]), mapper);
        defaultMappers := defaultMappers[(objType, items[i]) := mapper];
        i := i + 1;
      }
      assert items[..i] == items;
    }

    /** The mapper `reverse` uses for an entry: its own, or the default. */
    function ChosenMapper(e: Entry<V, M, K, X>, mro: seq<S>, uc: UseCase): Option<M>
      reads this
    {
      if e.mapper.Some? then e.mapper else MapperFor(defaultMappers, mro, uc)
    }

    /** `reverse(obj, use_case, kwargs)`. `apply` stands for calling a
        mapper on the object and `absoluteUrl` for `obj.get_absolute_url`
        when the object has one. Without a view, only a falsy use case
        falls back to the absolute URL; otherwise `NoUrlMapping`. */
    method Reverse<R>(obj: S, mro: seq<S>, uc: UseCase, kwargs: Option<map<K, X>>,
                      apply: M -> map<K, X>, absoluteUrl: Option<R>)
      returns (r: Result<Url<V, K, X, R>, Error>)
      ensures var found := ViewFor(instanceRegistry, registry, obj, mro, uc);
              && (found.Failure? && !Truthy(uc) && absoluteUrl.Some? ==> r == Success(Absolute(absoluteUrl.value)))
              && (found.Failure? && (Truthy(uc) || absoluteUrl.None?) ==> r == Failure(NoUrlMapping))
              && (found.Success? ==>
                    var m := ChosenMapper(found.value, mro, uc);
                    r == Success(Reversed(found.value.view,
                                          Merge(if m.Some? then apply(m.value) else map[], found.value.defaults, kwargs))))
    {
      var found := GetView(obj, mro, uc);
      if found.Failure? {
        if !Truthy(uc) && absoluteUrl.Some? {
          return Success(Absolute(absoluteUrl.value));
        }
        return Failure(NoUrlMapping);
      }
      var e := found.value;
      var mapper := e.mapper;
      if mapper.None? {
        mapper := GetDefaultMapper(mro, uc);
      }
      var objKwargs := if mapper.Some? then apply(mapper.value) else map[];
      objKwargs := ApplyDefaults(objKwargs, e.defaults);
      if kwargs.Some? {
        objKwargs := objKwargs + kwargs.value;
      }
      assert objKwargs == Merge(if mapper.Some? then apply(mapper.value) else map[], e.defaults, kwargs);
      r := Success(Reversed(e.view, objKwargs));
    }
  }

  // ---------------------------------------------------------------------
  // Registration and lookup together
  // ---------------------------------------------------------------------

  /** Once a class is registered for a use case, objects whose method
      resolution order starts with it (and which have no entry of their
      own) find that entry. */
  lemma RegisteredViewFound<S, E>(instances: map<(S, UseCase), E>, classes: map<(S, UseCase), E>,
                                  obj: S, mro: seq<S>, useCase: UseCase, uc: UseCase, e: E)
    requires |mro| > 0 && (obj, uc) !in instances && uc in Utils.ForceIter(useCase)
    ensures ViewFor(instances, classes + EntriesFor(mro[0], Utils.ForceIter(useCase), e), obj, mro, uc) == Success(e)
  {
    assert (mro[0], uc) in KeysFor(mro[0], Utils.ForceIter(useCase));
  }

  /** An object registered with `instances=False` finds its own entry
      whatever its classes have. */
  lemma InstanceViewFirst<S, E>(instances: map<(S, UseCase), E>, classes: map<(S, UseCase), E>,
                                obj: S, mro: seq<S>, useCase: UseCase, uc: UseCase, e: E)
    requires uc in Utils.ForceIter(useCase)
    ensures ViewFor(instances + EntriesFor(obj, Utils.ForceIter(useCase), e), classes, obj, mro, uc) == Success(e)
  {
    assert (obj, uc) in KeysFor(obj, Utils.ForceIter(useCase));
  }

  /** A default mapper set for a use case of the first class is the one
      found for it. */
  lemma DefaultMapperFound<S, M>(mappers: map<(S, UseCase), M>, mro: seq<S>, useCase: UseCase, uc: UseCase, m: M)
    requires |mro| > 0 && uc in Utils.ForceIter(useCase)
    ensures MapperFor(mappers + EntriesFor(mro[0], Utils.ForceIter(useCase), m), mro, uc) == Some(m)
  {
    assert (mro[0], uc) in KeysFor(mro[0], Utils.ForceIter(useCase));
  }

  /** A string use case registers one key, the string itself. */
  lemma StringUseCaseIsOne<S, E>(subject: S, s: string, e: E)
    ensures EntriesFor(subject, Utils.ForceIter(Utils.Str(s)), e) == map[(subject, Utils.Str(s)) := e]
  {
    assert KeysFor(subject, Utils.ForceIter(Utils.Str(s))) == {(subject, Utils.Str(s))};
  }
}
